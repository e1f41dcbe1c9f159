/**
 The decoders `lzo1x_decompress_safe` and `lzo1x_decompress`: one text, compiled with and
 without its checks, working on an output buffer in place. `checked` says which of the two
 it is; without checks the input must be one that the checked decoder accepts.
 */
module LzoDecompress {
  import opened Bytes
  import opened LzoFormat
  import opened LzoDecode

  // ---------------------------------------------------------------- wide copies

  lemma CopyMatchZero(out: seq<byte>, off: nat)
    requires 1 <= off <= |out|
    ensures CopyMatch(out, off, 0) == out
  {
  }

  lemma {:induction false} CopyMatchAdd(out: seq<byte>, off: nat, a: nat, b: nat)
    requires 1 <= off <= |out|
    ensures CopyMatch(CopyMatch(out, off, a), off, b) == CopyMatch(out, off, a + b)
    decreases a
  {
    if a > 0 {
      CopyMatchAdd(out + [out[|out| - off]], off, a - 1, b);
    }
  }

  /**
   A block of `w` bytes moved at once, as UA_COPY8 and UA_COPY4 do, is the byte-by-byte
   overlapping copy whenever the distance is at least `w`.
   */
  lemma {:induction false} WideCopyIsByteCopy(out: seq<byte>, off: nat, w: nat)
    requires w <= off <= |out| && 1 <= off
    ensures CopyMatch(out, off, w) == out + out[|out| - off..|out| - off + w]
    decreases w
  {
    if w > 0 {
      var b := out[|out| - off];
      WideCopyIsByteCopy(out + [b], off, w - 1);
      SliceStep(out, |out| - off, w);
    }
  }

  lemma SliceStep(out: seq<byte>, i: nat, w: nat)
    requires 0 < w && i + w <= |out|
    ensures var o := out + [out[i]]; o + o[i + 1..i + w] == out + out[i..i + w]
  {
    var o := out + [out[i]];
    assert o[i + 1..i + w] == out[i + 1..i + w];
    assert [out[i]] + out[i + 1..i + w] == out[i..i + w];
    assert o + o[i + 1..i + w] == out + ([out[i]] + out[i + 1..i + w]);
  }

  /** Nothing has been written from index `k` on. */
  twostate predicate Beyond(out: array<byte>, k: nat)
    reads out
  {
    forall i :: k <= i < out.Length ==> out[i] == old(out[i])
  }

  /** UA_COPY8 / UA_COPY4 inside the output buffer: all bytes are read before any is written. */
  method WideMove(out: array<byte>, op: nat, off: nat, w: nat)
    requires 1 <= off <= op && w <= off && op + w <= out.Length
    modifies out
    ensures out[..op + w] == CopyMatch(old(out[..op]), off, w)
    ensures Beyond(out, op + w)
  {
    WideCopyIsByteCopy(out[..op], off, w);
    forall i | 0 <= i < w {
      out[op + i] := out[op - off + i];
    }
    assert out[..op + w] == old(out[..op]) + old(out[..op])[op - off..op - off + w];
  }

  /** `*op++ = *m_pos++`, `n` times: the label copy_match. */
  method ByteMove(out: array<byte>, op0: nat, off: nat, n: nat) returns (op: nat)
    requires 1 <= off <= op0 && op0 + n <= out.Length
    modifies out
    ensures op == op0 + n && out[..op] == CopyMatch(old(out[..op0]), off, n)
    ensures Beyond(out, op)
  {
    op := op0;
    while op < op0 + n
      invariant op0 <= op <= op0 + n
      invariant CopyMatch(out[..op], off, op0 + n - op) == CopyMatch(old(out[..op0]), off, n)
      invariant Beyond(out, op0 + n)
    {
      ghost var before := out[..op];
      out[op] := out[op - off];
      assert out[..op + 1] == before + [before[op - off]];
      op := op + 1;
    }
  }

  /** A match copy at distance at least 8: eight bytes at a time, then four, then the rest. */
  method WideCopy(out: array<byte>, op0: nat, off: nat, len: nat) returns (op: nat)
    requires 8 <= off <= op0 && op0 + len <= out.Length
    modifies out
    ensures op == op0 + len && out[..op] == CopyMatch(old(out[..op0]), off, len)
    ensures Beyond(out, op)
  {
    hide CopyMatch;
    op := op0;
    var t: nat := len;
    ghost var start := out[..op0];
    CopyMatchZero(start, off);
    while t >= 8
      invariant op + t == op0 + len && op0 <= op && out[..op] == CopyMatch(start, off, op - op0)
      invariant Beyond(out, op0 + len)
    {
      CopyMatchAdd(start, off, op - op0, 8);
      WideMove(out, op, off, 8);
      op := op + 8;
      t := t - 8;
    }
    if t >= 4 {
      CopyMatchAdd(start, off, op - op0, 4);
      WideMove(out, op, off, 4);
      op := op + 4;
      t := t - 4;
    }
    CopyMatchAdd(start, off, op - op0, t);
    op := ByteMove(out, op, off, t);
  }

  /** Literals from the input, eight, four and one at a time. */
  method CopyLiterals(inp: seq<byte>, ip: nat, out: array<byte>, op0: nat, n: nat) returns (op: nat)
    requires ip + n <= |inp| && op0 + n <= out.Length
    modifies out
    ensures op == op0 + n && out[..op] == old(out[..op0]) + inp[ip..ip + n]
    ensures Beyond(out, op)
  {
    op := op0;
    ghost var start := out[..op0];
    while op < op0 + n
      invariant op0 <= op <= op0 + n && out[..op] == start + inp[ip..ip + (op - op0)]
      invariant Beyond(out, op0 + n)
    {
      var left := op0 + n - op;
      var w := if left >= 8 then 8 else if left >= 4 then 4 else 1;
      var from := ip + (op - op0);
      forall i | 0 <= i < w {
        out[op + i] := inp[from + i];
      }
      assert out[..op + w] == start + inp[ip..from] + inp[from..from + w];
      assert inp[ip..from] + inp[from..from + w] == inp[ip..from + w];
      op := op + w;
    }
  }

  // ---------------------------------------------------------------- the labels

  /** The checks of a step that ends like this all passed. */
  predicate Passed(s: State) {
    s.pc.Halt? ==> s.pc.status == OK || s.pc.status == InputNotConsumed
  }

  /** The `while (*ip == 0)` loops. */
  method ReadCount(inp: seq<byte>, ip0: nat, limit: Status, checked: bool) returns (c: Count)
    requires ip0 < |inp| && (!checked ==> ZeroRun(inp, ip0, 0, limit).Got?)
    ensures c == ZeroRun(inp, ip0, 0, limit)
  {
    var ip := ip0;
    var t: nat := 0;
    while inp[ip] == 0
      invariant ip < |inp| && ZeroRun(inp, ip, t, limit) == ZeroRun(inp, ip0, 0, limit)
      decreases |inp| - ip
    {
      t := t + 255;
      ip := ip + 1;
      if checked && t > MAX_T {
        return Overrun(limit);
      }
      if checked && |inp| - ip < 1 {
        return Overrun(InputOverrun);
      }
    }
    return Got(t + inp[ip], ip + 1);
  }

  /** TEST_LB, NEED_OP and the copy that follows; M3 and M4 matches may use the wide copy. */
  method DoCopy(out: array<byte>, cap: nat, ghost s: State, ip0: nat, ip1: nat, op0: nat, off: nat, len: nat,
                wide: bool, checked: bool) returns (ip: nat, op: nat, pc: Pc)
    requires op0 <= cap <= out.Length && 1 <= off && s == State(ip0, out[..op0], s.pc)
    requires checked || Passed(Copy(cap, s, ip1, off, len))
    requires !s.pc.Halt?
    modifies out
    ensures op <= cap && State(ip, out[..op], pc) == Copy(cap, s, ip1, off, len)
    ensures Beyond(out, cap)
  {
    hide CopyMatch;
    ip, op := ip0, op0;
    if checked && off > op {
      return ip, op, Halt(LookbehindOverrun);
    }
    if checked && cap - op < len {
      return ip, op, Halt(OutputOverrun);
    }
    if wide && off >= 8 {
      op := WideCopy(out, op, off, len);
    } else {
      op := ByteMove(out, op, off, len);
    }
    ip, pc := ip1, MatchDone;
  }

  /** NEED_OP(n), NEED_IP(n + 3) and the literal copy that follows. */
  method DoLiterals(inp: seq<byte>, out: array<byte>, cap: nat, ghost s: State, ip0: nat, ip1: nat, op0: nat, n: nat,
                    checked: bool) returns (ip: nat, op: nat, pc: Pc)
    requires op0 <= cap <= out.Length && ip1 <= |inp| && s == State(ip0, out[..op0], s.pc)
    requires checked || Passed(Literals(inp, cap, s, ip1, n))
    requires !s.pc.Halt?
    modifies out
    ensures op <= cap && State(ip, out[..op], pc) == Literals(inp, cap, s, ip1, n)
    ensures Beyond(out, cap)
  {
    ip, op := ip0, op0;
    if checked && cap - op < n {
      return ip, op, Halt(OutputOverrun);
    }
    if checked && |inp| - ip1 < n + 3 {
      return ip, op, Halt(InputOverrun);
    }
    op := CopyLiterals(inp, ip1, out, op, n);
    ip, pc := ip1 + n, FirstLiteralRun;
  }

  /** What holds of the buffers, and of the state they are in, when a label is reached. */
  ghost predicate At(inp: seq<byte>, cap: nat, s: State, ip: nat, op: nat, pc: Pc, out: array<byte>)
    reads out
  {
    op <= cap <= out.Length && s == State(ip, out[..op], pc) && Ready(inp, cap, s)
  }

  /** Outer loop: a match token, or a literal run with its header. */
  method AtTop(inp: seq<byte>, out: array<byte>, cap: nat, ghost s: State, ip0: nat, op0: nat, checked: bool)
    returns (ip: nat, op: nat, pc: Pc)
    requires At(inp, cap, s, ip0, op0, Top, out) && (checked || Passed(StepTop(inp, cap, s)))
    modifies out
    ensures op <= cap && State(ip, out[..op], pc) == StepTop(inp, cap, s)
    ensures Beyond(out, cap)
  {
    ip, op := ip0, op0;
    if checked && |inp| - ip < 3 {
      return ip, op, Halt(InputOverrun);
    }
    var t: nat := inp[ip];
    ip := ip + 1;
    if t >= 16 {
      return ip, op, Match(t);
    }
    if t == 0 {
      var c := ReadCount(inp, ip, InputOverrun, checked);
      if c.Overrun? {
        return ip0, op, Halt(c.status);
      }
      t, ip := c.t + 15, c.ip;
    }
    ip, op, pc := DoLiterals(inp, out, cap, s, ip0, ip, op, t + 3, checked);
  }

  /** A token right after a literal run; one below 16 is a three-byte match far back. */
  method AtFirstLiteralRun(inp: seq<byte>, out: array<byte>, cap: nat, ghost s: State, ip0: nat, op0: nat, checked: bool)
    returns (ip: nat, op: nat, pc: Pc)
    requires At(inp, cap, s, ip0, op0, FirstLiteralRun, out) && (checked || Passed(StepFirstLiteralRun(inp, cap, s)))
    modifies out
    ensures op <= cap && State(ip, out[..op], pc) == StepFirstLiteralRun(inp, cap, s)
    ensures Beyond(out, cap)
  {
    var t: nat := inp[ip0];
    if t >= 16 {
      return ip0 + 1, op0, Match(t);
    }
    var b: nat := inp[ip0 + 1];
    ip, op, pc := DoCopy(out, cap, s, ip0, ip0 + 2, op0, 1 + M2_MAX_OFFSET + t / 4 + b * 4, 3, false, checked);
  }

  /** An M3 token. */
  method AtM3(inp: seq<byte>, out: array<byte>, cap: nat, ghost s: State, ip0: nat, op0: nat, t0: byte, checked: bool)
    returns (ip: nat, op: nat, pc: Pc)
    requires At(inp, cap, s, ip0, op0, Match(t0), out) && 32 <= t0 < 64 && (checked || Passed(StepM3(inp, cap, s)))
    modifies out
    ensures op <= cap && State(ip, out[..op], pc) == StepM3(inp, cap, s)
    ensures Beyond(out, cap)
  {
    hide ZeroRun, CopyMatch, Offset16;
    ip, op := ip0, op0;
    var t: nat := t0 % 32;
    if t == 0 {
      var c := ReadCount(inp, ip, OutputOverrun, checked);
      if c.Overrun? {
        return ip0, op, Halt(c.status);
      }
      t, ip := c.t + 31, c.ip;
      if checked && |inp| - ip < 2 {
        return ip0, op, Halt(InputOverrun);
      }
    }
    ip, op, pc := DoCopy(out, cap, s, ip0, ip + 2, op, 1 + Offset16(inp, ip), t + 2, true, checked);
  }

  /** An M4 token, or the end marker. */
  method AtM4(inp: seq<byte>, out: array<byte>, cap: nat, ghost s: State, ip0: nat, op0: nat, t0: byte, checked: bool)
    returns (ip: nat, op: nat, pc: Pc)
    requires At(inp, cap, s, ip0, op0, Match(t0), out) && 16 <= t0 < 32 && (checked || Passed(StepM4(inp, cap, s)))
    modifies out
    ensures op <= cap && State(ip, out[..op], pc) == StepM4(inp, cap, s)
    ensures Beyond(out, cap)
  {
    hide ZeroRun, CopyMatch, Offset16;
    ip, op := ip0, op0;
    var d: nat := t0 / 8 % 2 * 0x4000;
    var t: nat := t0 % 8;
    if t == 0 {
      var c := ReadCount(inp, ip, OutputOverrun, checked);
      if c.Overrun? {
        return ip0, op, Halt(c.status);
      }
      t, ip := c.t + 7, c.ip;
      if checked && |inp| - ip < 2 {
        return ip0, op, Halt(InputOverrun);
      }
    }
    d := d + Offset16(inp, ip);
    if d == 0 {
      return ip + 2, op, Halt(if ip + 2 == |inp| then OK else InputNotConsumed);
    }
    ip, op, pc := DoCopy(out, cap, s, ip0, ip + 2, op, d + 0x4000, t + 2, true, checked);
  }

  /** The four token forms at label match. */
  method AtMatch(inp: seq<byte>, out: array<byte>, cap: nat, ghost s: State, ip0: nat, op0: nat, t0: byte, checked: bool)
    returns (ip: nat, op: nat, pc: Pc)
    requires At(inp, cap, s, ip0, op0, Match(t0), out) && (checked || Passed(StepMatch(inp, cap, s)))
    modifies out
    ensures op <= cap && State(ip, out[..op], pc) == StepMatch(inp, cap, s)
    ensures Beyond(out, cap)
  {
    hide ZeroRun, CopyMatch, StepM3, StepM4, Copy;
    var t: nat, b: nat := t0, inp[ip0];
    if t >= 64 {
      ip, op, pc := DoCopy(out, cap, s, ip0, ip0 + 1, op0, 1 + t / 4 % 8 + b * 8, t / 32 - 1 + 2, false, checked);
    } else if t >= 32 {
      ip, op, pc := AtM3(inp, out, cap, s, ip0, op0, t0, checked);
    } else if t >= 16 {
      ip, op, pc := AtM4(inp, out, cap, s, ip0, op0, t0, checked);
    } else {
      ip, op, pc := DoCopy(out, cap, s, ip0, ip0 + 1, op0, 1 + t / 4 + b * 4, 2, false, checked);
    }
  }

  method CopyFew(inp: seq<byte>, ip: nat, out: array<byte>, op: nat, n: nat)
    requires 1 <= n <= 3 && ip + n <= |inp| && op + n <= out.Length
    modifies out
    ensures out[..op + n] == old(out[..op]) + inp[ip..ip + n] && Beyond(out, op + n)
  {
    out[op] := inp[ip];
    if n > 1 {
      out[op + 1] := inp[ip + 1];
      if n > 2 {
        out[op + 2] := inp[ip + 2];
      }
    }
    assert out[op..op + n] == inp[ip..ip + n];
    assert out[..op + n] == out[..op] + out[op..op + n];
  }

  /** Up to three literals behind a match, then the next token. */
  method AtMatchNext(inp: seq<byte>, out: array<byte>, cap: nat, ghost s: State, ip0: nat, op0: nat, n: nat, checked: bool)
    returns (ip: nat, op: nat, pc: Pc)
    requires At(inp, cap, s, ip0, op0, MatchNext(n), out) && (checked || Passed(StepMatchNext(inp, cap, s)))
    modifies out
    ensures op <= cap && State(ip, out[..op], pc) == StepMatchNext(inp, cap, s)
    ensures Beyond(out, cap)
  {
    ip, op := ip0, op0;
    if checked && cap - op < n {
      return ip, op, Halt(OutputOverrun);
    }
    if checked && |inp| - ip < n + 3 {
      return ip, op, Halt(InputOverrun);
    }
    CopyFew(inp, ip, out, op, n);
    op := op + n;
    ip, pc := ip + n + 1, Match(inp[ip + n]);
  }

  /** What precedes the loop: an initial run coded in the first byte. */
  method AtStart(inp: seq<byte>, out: array<byte>, cap: nat, checked: bool) returns (ip: nat, op: nat, pc: Pc)
    requires cap <= out.Length && (checked || Passed(Start(inp, cap)))
    modifies out
    ensures op <= cap && State(ip, out[..op], pc) == Start(inp, cap)
    ensures Beyond(out, cap)
  {
    ip, op := 0, 0;
    if checked && |inp| < 1 {
      return ip, op, Halt(InputOverrun);
    }
    pc := Top;
    if inp[ip] > 17 {
      var t: nat := inp[ip] - 17;
      if t < 4 {
        return 1, op, MatchNext(t);
      }
      ip, op, pc := DoLiterals(inp, out, cap, State(0, [], Top), 0, 1, op, t, checked);
    }
  }

  // ---------------------------------------------------------------- the decoders

  lemma StepFacts(inp: seq<byte>, cap: nat, s: State)
    requires Ready(inp, cap, s) && !s.pc.Halt?
    ensures Progress(inp, cap, s, Step(inp, cap, s))
    ensures Ready(inp, cap, Step(inp, cap, s))
    ensures |inp| >= Step(inp, cap, s).ip >= s.ip
    ensures s.ip == Step(inp, cap, s).ip ==> Rank(Step(inp, cap, s).pc) < Rank(s.pc)
    ensures Run(inp, cap, s) == Run(inp, cap, Step(inp, cap, s))
    ensures Passed(Run(inp, cap, s)) ==> Passed(Step(inp, cap, s))
    ensures s.pc.Top? ==> Step(inp, cap, s) == StepTop(inp, cap, s)
    ensures s.pc.FirstLiteralRun? ==> Step(inp, cap, s) == StepFirstLiteralRun(inp, cap, s)
    ensures s.pc.Match? ==> Step(inp, cap, s) == StepMatch(inp, cap, s)
    ensures s.pc.MatchDone? ==> 2 <= s.ip && Step(inp, cap, s) == State(s.ip, s.out, if inp[s.ip - 2] % 4 == 0 then Top else MatchNext(inp[s.ip - 2] % 4))
    ensures s.pc.MatchNext? ==> Step(inp, cap, s) == StepMatchNext(inp, cap, s)
  {
    hide StepTop, StepFirstLiteralRun, StepMatch, StepMatchNext;
  }

  lemma StartFacts(inp: seq<byte>, cap: nat)
    ensures var s := Run(inp, cap, Start(inp, cap));
            Decode(inp, cap) == (s.pc.status, s.out) && (Passed(s) ==> Passed(Start(inp, cap)))
  {
  }

  lemma HaltFacts(inp: seq<byte>, cap: nat, s: State)
    requires Ready(inp, cap, s) && s.pc.Halt?
    ensures Run(inp, cap, s) == s
  {
  }

  /** The common text of the two decoders. */
  method Decompress1x(inp: seq<byte>, out: array<byte>, cap: nat, checked: bool) returns (status: Status, outLen: nat)
    requires cap <= out.Length
    requires checked || Passed(Run(inp, cap, Start(inp, cap)))
    modifies out
    ensures outLen <= cap && (status, out[..outLen]) == Decode(inp, cap)
    ensures Beyond(out, cap)
  {
    hide Decode, Run, Ready, Step, StepTop, StepFirstLiteralRun, StepMatch, StepMatchDone, StepMatchNext, Start, Progress,
         Rank, At, ZeroRun, Copy, CopyMatch, Literals;
    StartFacts(inp, cap);
    var ip: nat, op: nat, pc := AtStart(inp, out, cap, checked);
    ghost var s := Start(inp, cap);
    while !pc.Halt?
      invariant op <= cap && s == State(ip, out[..op], pc) && Ready(inp, cap, s)
      invariant Run(inp, cap, s) == Run(inp, cap, Start(inp, cap))
      invariant Beyond(out, cap)
      decreases |inp| - ip, Rank(pc)
    {
      StepFacts(inp, cap, s);
      ReadyAt(inp, cap, s, ip, op, pc, out);
      match pc {
        case Top => ip, op, pc := AtTop(inp, out, cap, s, ip, op, checked);
        case FirstLiteralRun => ip, op, pc := AtFirstLiteralRun(inp, out, cap, s, ip, op, checked);
        case Match(t) => ip, op, pc := AtMatch(inp, out, cap, s, ip, op, t, checked);
        case MatchDone => pc := if inp[ip - 2] % 4 == 0 then Top else MatchNext(inp[ip - 2] % 4);
        case MatchNext(n) => ip, op, pc := AtMatchNext(inp, out, cap, s, ip, op, n, checked);
      }
      s := Step(inp, cap, s);
    }
    HaltFacts(inp, cap, s);
    status, outLen := pc.status, op;
  }

  lemma ReadyAt(inp: seq<byte>, cap: nat, s: State, ip: nat, op: nat, pc: Pc, out: array<byte>)
    requires op <= cap <= out.Length && s == State(ip, out[..op], pc) && Ready(inp, cap, s)
    ensures At(inp, cap, s, ip, op, pc, out)
  {
  }

  /**
   `lzo1x_decompress_safe`: total, stays inside the input and inside the `cap` bytes it may
   write, and gives what LzoDecode.Decode specifies.
   */
  method DecompressSafe(inp: seq<byte>, out: array<byte>, cap: nat) returns (status: Status, outLen: nat)
    requires cap <= out.Length
    modifies out
    ensures outLen <= cap && (status, out[..outLen]) == Decode(inp, cap)
    ensures Beyond(out, cap)
  {
    status, outLen := Decompress1x(inp, out, cap, true);
  }

  /**
   `lzo1x_decompress`: without a single check it gives the same bytes on every input that
   the safe decoder accepts with the same room.
   */
  method Decompress(inp: seq<byte>, out: array<byte>) returns (status: Status, outLen: nat)
    requires Decode(inp, out.Length).0 == OK
    modifies out
    ensures outLen <= out.Length && (status, out[..outLen]) == Decode(inp, out.Length)
  {
    StartFacts(inp, out.Length);
    status, outLen := Decompress1x(inp, out, out.Length, false);
  }
}
