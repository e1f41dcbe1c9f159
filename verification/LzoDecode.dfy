/**
 `lzo1x_decompress_safe` as a machine: one state per label of the C function, one step per
 stretch of code between labels, every NEED_IP / NEED_OP / TEST_LB check in its place.
 The main result is that decoding undoes encoding.
 */
module LzoDecode {
  import opened Bytes
  import opened LzoFormat
  import LzoParse

  datatype Status = OK | InputNotConsumed | InputOverrun | OutputOverrun | LookbehindOverrun

  /** The labels: head of the outer loop, first_literal_run, match, match_done, match_next. */
  datatype Pc = Top | FirstLiteralRun | Match(t: byte) | MatchDone | MatchNext(n: nat) | Halt(status: Status)

  datatype State = State(ip: nat, out: seq<byte>, pc: Pc)

  /** Largest run counter that TEST_IV and TEST_OV let pass. */
  const MAX_T: nat := U64 - 511

  /** A run length read by one of the `while (*ip == 0)` loops, or the label it jumps to. */
  datatype Count = Got(t: nat, ip: nat) | Overrun(status: Status)

  function ZeroRun(inp: seq<byte>, ip: nat, t: nat, limit: Status): (r: Count)
    requires ip < |inp|
    ensures r.Got? ==> ip < r.ip <= |inp| && t < r.t
    ensures r.Overrun? ==> r.status == limit || r.status == InputOverrun
    decreases |inp| - ip
  {
    if inp[ip] != 0 then Got(t + inp[ip], ip + 1)
    else if t + 255 > MAX_T then Overrun(limit)
    else if ip + 1 >= |inp| then Overrun(InputOverrun)
    else ZeroRun(inp, ip + 1, t + 255, limit)
  }

  /** What is known at each label; it makes every unchecked read of the C code safe. */
  predicate Ready(inp: seq<byte>, cap: nat, s: State)
  {
    && s.ip <= |inp| && |s.out| <= cap
    && match s.pc
       case FirstLiteralRun => s.ip + 3 <= |inp|
       case Match(_) => 1 <= s.ip && s.ip + 2 <= |inp|
       case MatchDone => 2 <= s.ip
       case MatchNext(n) => 1 <= n <= 3
       case _ => true
  }

  function Rank(pc: Pc): nat {
    if pc.Halt? then 0 else if pc.MatchDone? then 2 else 1
  }

  /**
   A step never reads past the input or writes past `cap` (what is known at its label holds),
   only extends the output, and gets closer to the end.
   */
  predicate Progress(inp: seq<byte>, cap: nat, s: State, r: State)
  {
    && Ready(inp, cap, r) && s.out <= r.out
    && (s.ip < r.ip || (s.ip == r.ip && Rank(r.pc) < Rank(s.pc)))
  }

  function Stop(s: State, status: Status): State {
    s.(pc := Halt(status))
  }

  /** TEST_LB, NEED_OP, then copy `len` bytes from `off` back; the input is read up to `ip`. */
  function Copy(cap: nat, s: State, ip: nat, off: nat, len: nat): State
    requires 1 <= off
  {
    if off > |s.out| then Stop(s, LookbehindOverrun)
    else if cap < |s.out| + len then Stop(s, OutputOverrun)
    else State(ip, CopyMatch(s.out, off, len), MatchDone)
  }

  /** NEED_OP(n), NEED_IP(n + 3), then copy `n` literals and go on at `pc`. */
  function Literals(inp: seq<byte>, cap: nat, s: State, ip: nat, n: nat): State
    requires ip <= |inp|
  {
    if cap < |s.out| + n then Stop(s, OutputOverrun)
    else if |inp| < ip + n + 3 then Stop(s, InputOverrun)
    else State(ip + n, s.out + inp[ip..ip + n], FirstLiteralRun)
  }

  function Start(inp: seq<byte>, cap: nat): (s: State)
    ensures Ready(inp, cap, s)
  {
    var s := State(0, [], Top);
    if |inp| < 1 then Stop(s, InputOverrun)
    else if inp[0] > 17 then
      var t := inp[0] - 17;
      if t < 4 then State(1, [], MatchNext(t)) else Literals(inp, cap, s, 1, t)
    else s
  }

  function StepTop(inp: seq<byte>, cap: nat, s: State): (r: State)
    requires Ready(inp, cap, s) && s.pc.Top?
    ensures Progress(inp, cap, s, r)
  {
    if |inp| < s.ip + 3 then Stop(s, InputOverrun)
    else
      var t := inp[s.ip];
      if t >= 16 then State(s.ip + 1, s.out, Match(t))
      else
        var c := if t == 0 then ZeroRun(inp, s.ip + 1, 0, InputOverrun) else Got(t, s.ip + 1);
        match c
        case Overrun(st) => Stop(s, st)
        case Got(n, ip) => Literals(inp, cap, s, ip, (if t == 0 then n + 15 else n) + 3)
  }

  function StepFirstLiteralRun(inp: seq<byte>, cap: nat, s: State): (r: State)
    requires Ready(inp, cap, s) && s.pc.FirstLiteralRun?
    ensures Progress(inp, cap, s, r)
  {
    var t := inp[s.ip];
    if t >= 16 then State(s.ip + 1, s.out, Match(t))
    else Copy(cap, s, s.ip + 2, 1 + M2_MAX_OFFSET + t / 4 + (inp[s.ip + 1] as int) * 4, 3)
  }

  /** Offset field of an M3 or M4 token: UA_GET_LE16(ip) >> 2. */
  function Offset16(inp: seq<byte>, ip: nat): nat
    requires ip + 2 <= |inp|
  {
    (inp[ip] + 0x100 * (inp[ip + 1] as int)) / 4
  }

  function Finish(inp: seq<byte>, s: State, ip: nat): State
    requires ip <= |inp|
  {
    State(ip, s.out, Halt(if ip == |inp| then OK else InputNotConsumed))
  }

  /** An M3 token, 32 <= t < 64. */
  function StepM3(inp: seq<byte>, cap: nat, s: State): (r: State)
    requires Ready(inp, cap, s) && s.pc.Match? && 32 <= s.pc.t < 64
    ensures Progress(inp, cap, s, r)
  {
    var n := s.pc.t % 32;
    var c := if n == 0 then ZeroRun(inp, s.ip, 0, OutputOverrun) else Got(n, s.ip);
    match c
    case Overrun(st) => Stop(s, st)
    case Got(m, ip) =>
      if n == 0 && |inp| < ip + 2 then Stop(s, InputOverrun)
      else Copy(cap, s, ip + 2, 1 + Offset16(inp, ip), (if n == 0 then m + 31 else m) + 2)
  }

  /** An M4 token or the end marker, 16 <= t < 32. */
  function StepM4(inp: seq<byte>, cap: nat, s: State): (r: State)
    requires Ready(inp, cap, s) && s.pc.Match? && 16 <= s.pc.t < 32
    ensures Progress(inp, cap, s, r)
  {
    var n := s.pc.t % 8;
    var c := if n == 0 then ZeroRun(inp, s.ip, 0, OutputOverrun) else Got(n, s.ip);
    match c
    case Overrun(st) => Stop(s, st)
    case Got(m, ip) =>
      if n == 0 && |inp| < ip + 2 then Stop(s, InputOverrun)
      else
        var d := s.pc.t / 8 % 2 * 0x4000 + Offset16(inp, ip);
        if d == 0 then Finish(inp, s, ip + 2)
        else Copy(cap, s, ip + 2, d + 0x4000, (if n == 0 then m + 7 else m) + 2)
  }

  function StepMatch(inp: seq<byte>, cap: nat, s: State): (r: State)
    requires Ready(inp, cap, s) && s.pc.Match?
    ensures Progress(inp, cap, s, r)
  {
    var t := s.pc.t;
    if t >= 64 then Copy(cap, s, s.ip + 1, 1 + t / 4 % 8 + (inp[s.ip] as int) * 8, t / 32 - 1 + 2)
    else if t >= 32 then StepM3(inp, cap, s)
    else if t >= 16 then StepM4(inp, cap, s)
    else Copy(cap, s, s.ip + 1, 1 + t / 4 + (inp[s.ip] as int) * 4, 2)
  }

  function StepMatchDone(inp: seq<byte>, cap: nat, s: State): (r: State)
    requires Ready(inp, cap, s) && s.pc.MatchDone?
    ensures Progress(inp, cap, s, r)
  {
    var t := inp[s.ip - 2] % 4;
    State(s.ip, s.out, if t == 0 then Top else MatchNext(t))
  }

  function StepMatchNext(inp: seq<byte>, cap: nat, s: State): (r: State)
    requires Ready(inp, cap, s) && s.pc.MatchNext?
    ensures Progress(inp, cap, s, r)
  {
    var n := s.pc.n;
    if cap < |s.out| + n then Stop(s, OutputOverrun)
    else if |inp| < s.ip + n + 3 then Stop(s, InputOverrun)
    else State(s.ip + n + 1, s.out + inp[s.ip..s.ip + n], Match(inp[s.ip + n]))
  }

  function Step(inp: seq<byte>, cap: nat, s: State): (r: State)
    requires Ready(inp, cap, s) && !s.pc.Halt?
    ensures Progress(inp, cap, s, r)
  {
    match s.pc
    case Top => StepTop(inp, cap, s)
    case FirstLiteralRun => StepFirstLiteralRun(inp, cap, s)
    case Match(_) => StepMatch(inp, cap, s)
    case MatchDone => StepMatchDone(inp, cap, s)
    case MatchNext(_) => StepMatchNext(inp, cap, s)
  }

  /** Running to the end: total on every input. */
  function Run(inp: seq<byte>, cap: nat, s: State): (r: State)
    requires Ready(inp, cap, s)
    ensures r.pc.Halt? && |r.out| <= cap && s.out <= r.out
    decreases |inp| - s.ip, Rank(s.pc)
  {
    if s.pc.Halt? then s else Run(inp, cap, Step(inp, cap, s))
  }

  /** Status and output of `lzo1x_decompress_safe` on `inp` with room for `cap` bytes. */
  function Decode(inp: seq<byte>, cap: nat): (r: (Status, seq<byte>))
    ensures |r.1| <= cap
  {
    var s := Run(inp, cap, Start(inp, cap));
    (s.pc.status, s.out)
  }

  // ---------------------------------------------------------------- decoding an encoding

  lemma LongStep(n: nat)
    requires 0 < n
    ensures Long(n) == if n > 255 then [0] + Long(n - 255) else [n]
  {}

  lemma HasInside(inp: seq<byte>, ip: nat, a: seq<byte>)
    requires Has(inp, ip, a)
    ensures ip + |a| <= |inp|
  {}

  /** The zero-run loop reads back a long count. */
  lemma {:induction false} ZeroRunLong(inp: seq<byte>, ip: nat, t: nat, n: nat, limit: Status)
    requires 0 < n && Has(inp, ip, Long(n)) && t + (n - 1) / 255 * 255 <= MAX_T
    ensures ip < |inp| && ZeroRun(inp, ip, t, limit) == Got(t + n, ip + |Long(n)|)
    decreases n
  {
    hide Has, Long;
    LongStep(n);
    HasAt(inp, ip, Long(n), 0);
    HasInside(inp, ip, Long(n));
    if n > 255 {
      HasConcat(inp, ip, [0], Long(n - 255));
      ZeroRunLong(inp, ip + 1, t + 255, n - 255, limit);
    }
  }

  /** The count of a run of four or more literals is read back from its header. */
  lemma DecodeHeader(inp: seq<byte>, ip: nat, n: nat)
    requires 3 < n <= MAX_T && Has(inp, ip, LitHeader(n)) && ip + 1 < |inp|
    ensures var t := inp[ip];
            t < 16 &&
            var c := if t == 0 then ZeroRun(inp, ip + 1, 0, InputOverrun) else Got(t, ip + 1);
            c.Got? && c.ip == ip + |LitHeader(n)| && (if t == 0 then c.t + 15 else c.t) + 3 == n
  {
    HasAt(inp, ip, LitHeader(n), 0);
    if n > 18 {
      HasConcat(inp, ip, [0], Long(n - 18));
      ZeroRunLong(inp, ip + 1, 0, n - 18, InputOverrun);
    }
  }

  /** Where the decoder stands when the next thing to come is the run `lit`. */
  function AtRun(ip: nat, out: seq<byte>, lit: seq<byte>): State {
    State(ip, out, if 1 <= |lit| <= 3 then MatchNext(|lit|) else Top)
  }

  /** A run of four or more literals: header and copy. */
  lemma DecodeLongRun(inp: seq<byte>, cap: nat, ip: nat, out: seq<byte>, lit: seq<byte>)
    requires Has(inp, ip, LitHeader(|lit|)) && Has(inp, ip + |LitHeader(|lit|)|, lit)
    requires ip + |LitHeader(|lit|)| + |lit| + 3 <= |inp|
    requires 3 < |lit| <= MAX_T && |out| + |lit| <= cap
    ensures StepTop(inp, cap, State(ip, out, Top)) == State(ip + |LitHeader(|lit|)| + |lit|, out + lit, FirstLiteralRun)
  {
    DecodeHeader(inp, ip, |lit|);
  }

  /** Up to three literals are copied without a header. */
  lemma DecodeShortRun(inp: seq<byte>, cap: nat, ip: nat, out: seq<byte>, lit: seq<byte>)
    requires |lit| <= 3 && |out| + |lit| <= cap
    requires ip + |lit| + 3 <= |inp| && Has(inp, ip, lit) && 16 <= inp[ip + |lit|]
    ensures Run(inp, cap, AtRun(ip, out, lit)) == Run(inp, cap, State(ip + |lit| + 1, out + lit, Match(inp[ip + |lit|])))
  {
    hide StepMatch;
    if lit == [] {
      assert out + lit == out;
    }
    assert Step(inp, cap, AtRun(ip, out, lit)) == State(ip + |lit| + 1, out + lit, Match(inp[ip + |lit|]));
  }

  /** Top label, a literal run, and the token byte behind it, when all checks pass. */
  lemma RunTop(inp: seq<byte>, cap: nat, s: State)
    requires Ready(inp, cap, s) && s.pc.Top?
    requires var s1 := StepTop(inp, cap, s);
             s1.pc.FirstLiteralRun? && Ready(inp, cap, s1) && 16 <= inp[s1.ip]
    ensures var s1 := StepTop(inp, cap, s);
            Run(inp, cap, s) == Run(inp, cap, State(s1.ip + 1, s1.out, Match(inp[s1.ip])))
  {
    hide StepTop;
    assert Step(inp, cap, s) == StepTop(inp, cap, s);
    StepIntoToken(inp, cap, StepTop(inp, cap, s));
  }

  lemma StepIntoToken(inp: seq<byte>, cap: nat, s: State)
    requires Ready(inp, cap, s) && s.pc.FirstLiteralRun? && 16 <= inp[s.ip]
    ensures Run(inp, cap, s) == Run(inp, cap, State(s.ip + 1, s.out, Match(inp[s.ip])))
  {
    assert Step(inp, cap, s) == State(s.ip + 1, s.out, Match(inp[s.ip]));
  }

  /** A run of four or more literals, as far as the token behind it. */
  lemma RunLongRun(inp: seq<byte>, cap: nat, ip: nat, out: seq<byte>, lit: seq<byte>)
    requires Has(inp, ip, LitHeader(|lit|)) && Has(inp, ip + |LitHeader(|lit|)|, lit)
    requires ip + |LitHeader(|lit|)| + |lit| + 3 <= |inp|
    requires 3 < |lit| <= MAX_T && |out| + |lit| <= cap
    requires 16 <= inp[ip + |LitHeader(|lit|)| + |lit|]
    ensures var ip' := ip + |LitHeader(|lit|)| + |lit|;
            Run(inp, cap, AtRun(ip, out, lit)) == Run(inp, cap, State(ip' + 1, out + lit, Match(inp[ip'])))
  {
    hide Has, Run, LitHeader;
    DecodeLongRun(inp, cap, ip, out, lit);
    RunTop(inp, cap, State(ip, out, Top));
  }

  /** A literal run is copied, and the decoder arrives at the token behind it. */
  lemma DecodeRun(inp: seq<byte>, cap: nat, ip: nat, out: seq<byte>, lit: seq<byte>)
    requires Has(inp, ip, LitBytes(lit)) && ip + |LitBytes(lit)| + 3 <= |inp|
    requires 16 <= inp[ip + |LitBytes(lit)|] && |out| + |lit| <= cap && |lit| <= MAX_T
    ensures var ip' := ip + |LitBytes(lit)|;
            Run(inp, cap, AtRun(ip, out, lit)) == Run(inp, cap, State(ip' + 1, out + lit, Match(inp[ip'])))
  {
    hide Has, Run, StepTop, AtRun;
    HasConcat(inp, ip, LitHeader(|lit|), lit);
    if |lit| <= 3 {
      assert LitBytes(lit) == lit;
      DecodeShortRun(inp, cap, ip, out, lit);
    } else {
      RunLongRun(inp, cap, ip, out, lit);
    }
  }

  /** The offset of an M2 token is read back. */
  lemma DecodeM2(inp: seq<byte>, cap: nat, ip: nat, out: seq<byte>, off: nat, len: nat, k: nat)
    requires 1 <= off && 3 <= len && IsM2(off, len) && k <= 3
    requires 1 <= ip && ip + 2 <= |inp| && |out| <= cap
    requires inp[ip - 1] == MatchLow(off, len) + k && inp[ip] == MatchHigh(off, len)
    ensures var s := State(ip, out, Match(inp[ip - 1]));
            16 <= inp[ip - 1] && inp[ip - 1] % 4 == k && StepMatch(inp, cap, s) == Copy(cap, s, ip + 1, off, len)
  {
    hide ZeroRun, Copy, Offset16;
    var t := inp[ip - 1];
    assert t / 4 % 8 == (off - 1) % 8;
    assert t / 32 == len - 1;
  }

  /** Token byte `t` and the bytes from `ip` to `ip'` give the length of an M3 or M4 match. */
  predicate LengthField(inp: seq<byte>, ip: nat, t: byte, off: nat, len: nat, ip': nat)
    requires ip < |inp|
  {
    var m3 := off <= M3_MAX_OFFSET;
    var n := if m3 then t % 32 else t % 8;
    var c := if n == 0 then ZeroRun(inp, ip, 0, OutputOverrun) else Got(n, ip);
    && (if m3 then 32 <= t < 64 else 16 <= t < 32 && t / 8 % 2 == (off - 0x4000) / 0x4000)
    && c.Got? && c.ip == ip'
    && (if n == 0 then c.t + (if m3 then 31 else 7) else c.t) + 2 == len
  }

  /** A short length is in the token byte. */
  lemma DecodeShortField(inp: seq<byte>, ip: nat, off: nat, len: nat)
    requires 1 <= off <= M4_MAX_OFFSET && 3 <= len <= (if off <= M3_MAX_OFFSET then M3_MAX_LEN else M4_MAX_LEN)
    requires 1 <= ip < |inp| && !IsM2(off, len) && inp[ip - 1] == MatchHead(off, len)[0]
    ensures LengthField(inp, ip, inp[ip - 1], off, len, ip)
  {
    hide ZeroRun;
  }

  /** A long one leaves zeros there, and follows it. */
  lemma DecodeLongField(inp: seq<byte>, ip: nat, off: nat, len: nat)
    requires 1 <= off <= M4_MAX_OFFSET && (if off <= M3_MAX_OFFSET then M3_MAX_LEN else M4_MAX_LEN) < len <= MAX_T
    requires 1 <= ip < |inp| && inp[ip - 1] == MatchHead(off, len)[0]
    requires var max := if off <= M3_MAX_OFFSET then M3_MAX_LEN else M4_MAX_LEN;
             && MatchHead(off, len) == [inp[ip - 1]] + Long(len - max)
             && ZeroRun(inp, ip, 0, OutputOverrun) == Got(len - max, ip + |Long(len - max)|)
    ensures LengthField(inp, ip, inp[ip - 1], off, len, ip - 1 + |MatchHead(off, len)|)
  {
    hide ZeroRun, Long;
  }

  lemma LongHead(off: nat, len: nat)
    requires 1 <= off <= M4_MAX_OFFSET && 3 <= len && !IsM2(off, len)
    ensures var max := if off <= M3_MAX_OFFSET then M3_MAX_LEN else M4_MAX_LEN;
            && 0 < |MatchHead(off, len)|
            && (len <= max ==> |MatchHead(off, len)| == 1)
            && (max < len ==> MatchHead(off, len) == [MatchHead(off, len)[0]] + Long(len - max))
  {
    hide Long;
  }

  /** The length of an M3 or M4 match is read back from the bytes before its offset. */
  lemma DecodeLengthField(inp: seq<byte>, ip: nat, off: nat, len: nat)
    requires 1 <= off <= M4_MAX_OFFSET && 3 <= len <= MAX_T && !IsM2(off, len)
    requires 1 <= ip < |inp| && Has(inp, ip - 1, MatchHead(off, len))
    ensures LengthField(inp, ip, inp[ip - 1], off, len, ip - 1 + |MatchHead(off, len)|)
  {
    hide MatchHead, Long, ZeroRun, Has, LengthField;
    var h := MatchHead(off, len);
    LongHead(off, len);
    HasAt(inp, ip - 1, h, 0);
    var max := if off <= M3_MAX_OFFSET then M3_MAX_LEN else M4_MAX_LEN;
    if len > max {
      HasConcat(inp, ip - 1, [h[0]], Long(len - max));
      ZeroRunLong(inp, ip, 0, len - max, OutputOverrun);
      DecodeLongField(inp, ip, off, len);
    } else {
      DecodeShortField(inp, ip, off, len);
    }
  }

  /** The two bytes of the offset field hold the offset, or its low fourteen bits. */
  lemma OffsetField(off: nat, len: nat, k: nat)
    requires 1 <= off <= M4_MAX_OFFSET && 3 <= len && !IsM2(off, len) && k <= 3
    ensures var lo, hi := MatchLow(off, len) + k, MatchHigh(off, len);
            && (lo + 0x100 * (hi as int)) / 4 == (if off <= M3_MAX_OFFSET then off - 1 else (off - 0x4000) % 0x4000)
            && lo % 4 == k
  {
    var d := if off <= M3_MAX_OFFSET then off - 1 else (off - 0x4000) % 0x4000;
    assert MatchLow(off, len) == d % 64 * 4 by {
      if off > M3_MAX_OFFSET { assert (off - 0x4000) % 0x4000 % 64 == (off - 0x4000) % 64; }
    }
    assert MatchHigh(off, len) == d / 64;
  }

  /** The offset of an M3 or M4 token is read back. */
  lemma DecodeM34(inp: seq<byte>, cap: nat, s: State, off: nat, len: nat, k: nat, ip': nat)
    requires 1 <= off <= M4_MAX_OFFSET && 3 <= len && !IsM2(off, len) && k <= 3
    requires Ready(inp, cap, s) && s.pc.Match? && ip' + 2 <= |inp|
    requires LengthField(inp, s.ip, s.pc.t, off, len, ip')
    requires inp[ip'] == MatchLow(off, len) + k && inp[ip' + 1] == MatchHigh(off, len)
    ensures 16 <= s.pc.t && inp[ip'] % 4 == k && StepMatch(inp, cap, s) == Copy(cap, s, ip' + 2, off, len)
  {
    hide ZeroRun, Copy, MatchLow, MatchHigh;
    OffsetField(off, len, k);
    var d := Offset16(inp, ip');
    if off > M3_MAX_OFFSET {
      assert off == (off - 0x4000) / 0x4000 * 0x4000 + d + 0x4000;
    }
  }

  /** Where the parts of a match token stand. */
  lemma TokenLayout(inp: seq<byte>, ip: nat, off: nat, len: nat, k: nat)
    requires 1 <= off <= M4_MAX_OFFSET && 3 <= len && k <= 3
    requires Has(inp, ip, MatchBytes(off, len, k))
    ensures var h := MatchHead(off, len);
            && |MatchBytes(off, len, k)| == |h| + 2 && ip + |h| + 2 <= |inp| && Has(inp, ip, h)
            && inp[ip + |h|] == MatchLow(off, len) + k && inp[ip + |h| + 1] == MatchHigh(off, len)
  {
    var h := MatchHead(off, len);
    var f := [MatchLow(off, len) + k, MatchHigh(off, len)];
    HasConcat(inp, ip, h, f);
    HasAt(inp, ip + |h|, f, 0);
    HasAt(inp, ip + |h|, f, 1);
  }

  /** A match token is read and its copy carried out. */
  lemma DecodeMatch(inp: seq<byte>, cap: nat, ip: nat, out: seq<byte>, off: nat, len: nat, k: nat)
    requires 1 <= off <= M4_MAX_OFFSET && 3 <= len <= MAX_T && k <= 3
    requires Has(inp, ip, MatchBytes(off, len, k)) && ip + |MatchBytes(off, len, k)| + 2 <= |inp|
    requires |out| <= cap
    ensures var s := State(ip + 1, out, Match(inp[ip]));
            var ip' := ip + |MatchBytes(off, len, k)|;
            && 16 <= inp[ip] && inp[ip' - 2] % 4 == k
            && StepMatch(inp, cap, s) == Copy(cap, s, ip', off, len)
  {
    hide Has, MatchBytes, MatchLow, MatchHigh, StepMatch, Copy, LengthField;
    TokenLayout(inp, ip, off, len, k);
    var h := MatchHead(off, len);
    if IsM2(off, len) {
      DecodeM2(inp, cap, ip + 1, out, off, len, k);
    } else {
      DecodeLengthField(inp, ip + 1, off, len);
      DecodeM34(inp, cap, State(ip + 1, out, Match(inp[ip])), off, len, k, ip + |h|);
    }
  }

  /** The end marker stops the decoder, satisfied if it was the last thing in the input. */
  lemma DecodeEof(inp: seq<byte>, cap: nat, ip: nat, out: seq<byte>)
    requires Has(inp, ip, EOF_MARKER) && ip + 3 == |inp| && |out| <= cap
    ensures inp[ip] == 17
    ensures Run(inp, cap, State(ip + 1, out, Match(17))) == State(|inp|, out, Halt(OK))
  {
    HasAt(inp, ip, EOF_MARKER, 0);
    HasAt(inp, ip, EOF_MARKER, 1);
    HasAt(inp, ip, EOF_MARKER, 2);
    var s := State(ip + 1, out, Match(17));
    assert Offset16(inp, ip + 1) == 0;
    assert Step(inp, cap, s) == State(|inp|, out, Halt(OK));
  }

  function FirstRun(segs: seq<Seg>, tail: seq<byte>): seq<byte> {
    if segs == [] then tail else segs[0].lit
  }

  function Rest(segs: seq<Seg>, tail: seq<byte>): seq<byte>
    requires Encodable(segs)
  {
    Body(segs, LowLits(tail)) + (LitBytes(tail) + EOF_MARKER)
  }

  /** After a match and its copy the decoder stands at the next literal run. */
  lemma RunMatch(inp: seq<byte>, cap: nat, ip: nat, out: seq<byte>, s: Seg, next: seq<byte>)
    requires 1 <= s.off <= M4_MAX_OFFSET && 3 <= s.len <= MAX_T
    requires Has(inp, ip, MatchBytes(s.off, s.len, LowLits(next)))
    requires ip + |MatchBytes(s.off, s.len, LowLits(next))| + 2 <= |inp|
    requires s.off <= |out| && |out| + s.len <= cap
    ensures 16 <= inp[ip]
    ensures var ip' := ip + |MatchBytes(s.off, s.len, LowLits(next))|;
            Run(inp, cap, State(ip + 1, out, Match(inp[ip])))
            == Run(inp, cap, AtRun(ip', CopyMatch(out, s.off, s.len), next))
  {
    hide Has, MatchBytes, StepMatch, StepTop, StepFirstLiteralRun, StepMatchNext, CopyMatch;
    DecodeMatch(inp, cap, ip, out, s.off, s.len, LowLits(next));
    var ip' := ip + |MatchBytes(s.off, s.len, LowLits(next))|;
    var s0 := State(ip + 1, out, Match(inp[ip]));
    var s1 := State(ip', CopyMatch(out, s.off, s.len), MatchDone);
    assert Step(inp, cap, s0) == s1;
    assert Step(inp, cap, s1) == AtRun(ip', CopyMatch(out, s.off, s.len), next);
  }

  /** Run, match, and on to the next run. */
  lemma DecodeSeg(inp: seq<byte>, cap: nat, ip: nat, out: seq<byte>, s: Seg, next: seq<byte>)
    requires 1 <= s.off <= |out| + |s.lit| && s.off <= M4_MAX_OFFSET && 3 <= s.len
    requires |out| + |s.lit| + s.len <= cap && |s.lit| + s.len <= MAX_T
    requires Has(inp, ip, LitBytes(s.lit))
    requires Has(inp, ip + |LitBytes(s.lit)|, MatchBytes(s.off, s.len, LowLits(next)))
    requires ip + |LitBytes(s.lit)| + |MatchBytes(s.off, s.len, LowLits(next))| + 2 <= |inp|
    ensures var ip' := ip + |LitBytes(s.lit)| + |MatchBytes(s.off, s.len, LowLits(next))|;
            Run(inp, cap, AtRun(ip, out, s.lit))
            == Run(inp, cap, AtRun(ip', CopyMatch(out + s.lit, s.off, s.len), next))
  {
    hide *;
    RunMatch(inp, cap, ip + |LitBytes(s.lit)|, out + s.lit, s, next);
    DecodeRun(inp, cap, ip, out, s.lit);
  }

  /** The first segment of an encoding, and the rest of it. */
  lemma RestCons(segs: seq<Seg>, tail: seq<byte>)
    requires segs != [] && Encodable(segs)
    ensures Rest(segs, tail)
            == LitBytes(segs[0].lit)
               + (MatchBytes(segs[0].off, segs[0].len, LowLits(FirstRun(segs[1..], tail))) + Rest(segs[1..], tail))
  {
    hide LitBytes, MatchBytes, LowLits;
    assert |segs| == 1 ==> segs[1..] == [];
    var a := LitBytes(segs[0].lit);
    var m := MatchBytes(segs[0].off, segs[0].len, LowLits(FirstRun(segs[1..], tail)));
    Assoc(a, m, Body(segs[1..], LowLits(tail)), LitBytes(tail) + EOF_MARKER);
  }

  lemma Assoc(a: seq<byte>, b: seq<byte>, c: seq<byte>, d: seq<byte>)
    ensures a + b + c + d == a + (b + (c + d))
  {
  }

  /** Where the parts of an encoding stand in the input. */
  lemma SegLayout(inp: seq<byte>, ip: nat, segs: seq<Seg>, tail: seq<byte>)
    requires segs != [] && Encodable(segs) && Has(inp, ip, Rest(segs, tail))
    ensures var a := LitBytes(segs[0].lit);
            var m := MatchBytes(segs[0].off, segs[0].len, LowLits(FirstRun(segs[1..], tail)));
            && Has(inp, ip, a) && Has(inp, ip + |a|, m) && Has(inp, ip + |a| + |m|, Rest(segs[1..], tail))
            && |Rest(segs, tail)| == |a| + |m| + |Rest(segs[1..], tail)|
  {
    hide Has, LitBytes, MatchBytes, LowLits, Body, Rest;
    RestCons(segs, tail);
    var a := LitBytes(segs[0].lit);
    var m := MatchBytes(segs[0].off, segs[0].len, LowLits(FirstRun(segs[1..], tail)));
    HasConcat(inp, ip, a, m + Rest(segs[1..], tail));
    HasConcat(inp, ip + |a|, m, Rest(segs[1..], tail));
  }

  /** From any segment boundary the decoder rebuilds what the remaining segments stand for. */
  lemma {:induction false} DecodeSegs(inp: seq<byte>, cap: nat, ip: nat, out: seq<byte>, segs: seq<Seg>, tail: seq<byte>)
    requires Valid(segs, |out|) && Encodable(segs)
    requires Has(inp, ip, Rest(segs, tail)) && ip + |Rest(segs, tail)| == |inp|
    requires |Expand(out, segs)| + |tail| <= cap && |Expand(out, segs)| + |tail| <= MAX_T
    ensures Run(inp, cap, AtRun(ip, out, FirstRun(segs, tail)))
            == State(|inp|, Expand(out, segs) + tail, Halt(OK))
    decreases |segs|
  {
    hide Has, LitBytes, MatchBytes, LowLits, Run, AtRun, CopyMatch;
    if segs == [] {
      assert Rest(segs, tail) == LitBytes(tail) + EOF_MARKER;
      HasConcat(inp, ip, LitBytes(tail), EOF_MARKER);
      DecodeEof(inp, cap, ip + |LitBytes(tail)|, out + tail);
      DecodeRun(inp, cap, ip, out, tail);
    } else {
      var s, rest := segs[0], segs[1..];
      var next := FirstRun(rest, tail);
      SegLayout(inp, ip, segs, tail);
      var out1 := CopyMatch(out + s.lit, s.off, s.len);
      assert |out1| <= |Expand(out1, rest)|;
      DecodeSeg(inp, cap, ip, out, s, next);
      DecodeSegs(inp, cap, ip + |LitBytes(s.lit)| + |MatchBytes(s.off, s.len, LowLits(next))|, out1, rest, tail);
    }
  }

  /** A stream without matches: its first byte holds the literal count. */
  lemma DecodeLiteralsOnly(lit: seq<byte>, cap: nat)
    requires 0 < |lit| <= 238 && |lit| <= cap
    ensures Decode(Stream([], lit), cap) == (OK, lit)
  {
    var inp := Stream([], lit);
    assert inp == [17 + |lit|] + (lit + EOF_MARKER);
    HasAll(inp);
    HasConcat(inp, 0, [17 + |lit|], lit + EOF_MARKER);
    HasConcat(inp, 1, lit, EOF_MARKER);
    HasAt(inp, 0, [17 + |lit|], 0);
    StartLiterals(inp, cap, lit);
    DecodeEof(inp, cap, 1 + |lit|, lit);
  }

  lemma StartLiterals(inp: seq<byte>, cap: nat, lit: seq<byte>)
    requires 0 < |lit| <= 238 && |lit| <= cap && |lit| + 4 <= |inp|
    requires inp[0] == 17 + |lit| && Has(inp, 1, lit) && inp[1 + |lit|] == 17
    ensures Run(inp, cap, Start(inp, cap)) == Run(inp, cap, State(2 + |lit|, lit, Match(17)))
  {
    hide StepMatch, StepTop;
    if |lit| <= 3 {
      DecodeShortRun(inp, cap, 1, [], lit);
      assert [] + lit == lit;
    } else {
      assert Start(inp, cap) == State(1 + |lit|, lit, FirstLiteralRun);
      StepIntoToken(inp, cap, Start(inp, cap));
    }
  }

  /** A stream that stands for nothing is just the end marker. */
  lemma DecodeEmpty(cap: nat)
    ensures Decode(Stream([], []), cap) == (OK, [])
  {
    var inp := Stream([], []);
    assert inp == EOF_MARKER;
    HasAll(inp);
    DecodeEof(inp, cap, 0, []);
    assert Step(inp, cap, State(0, [], Top)) == State(1, [], Match(17));
  }

  /** Decoding a stream gives back exactly what it stands for. */
  lemma DecodeStream(segs: seq<Seg>, tail: seq<byte>, cap: nat)
    requires Valid(segs, 0) && Encodable(segs) && (segs != [] ==> 4 <= |segs[0].lit|)
    requires |Expand([], segs)| + |tail| <= cap && |Expand([], segs)| + |tail| <= MAX_T
    ensures Decode(Stream(segs, tail), cap) == (OK, Expand([], segs) + tail)
  {
    hide Run, Has, Valid, Encodable, Long;
    if segs == [] && tail == [] {
      DecodeEmpty(cap);
    } else if segs == [] && |tail| <= 238 {
      DecodeLiteralsOnly(tail, cap);
      assert Expand([], segs) + tail == tail;
    } else {
      var inp := Stream(segs, tail);
      var first := FirstRun(segs, tail);
      assert inp == Rest(segs, tail);
      HasAll(inp);
      DecodeSegs(inp, cap, 0, [], segs, tail);
      assert inp[0] == LitHeader(|first|)[0];
      assert Start(inp, cap) == AtRun(0, [], first);
    }
  }

  /**
   Round trip: for every input of any length the allocator can hold, decompressing the
   compressed bytes with room for the original gives back the original and LZO_E_OK.
   */
  lemma RoundTrip(x: seq<byte>, addr: nat, cap: nat)
    requires |x| <= cap && |x| <= MAX_T
    ensures Decode(LzoParse.Compressed(x, addr), cap) == (OK, x)
  {
    hide Decode, Valid, Encodable, Expand, Stream;
    var p := LzoParse.Blocks(x, addr, 0, 0);
    ValidEncodable(p.segs, 0);
    assert x[..0] == [];
    DecodeStream(p.segs, x[p.rest..], cap);
    assert x[..p.rest] + x[p.rest..] == x;
  }
}
