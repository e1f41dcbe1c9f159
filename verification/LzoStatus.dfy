/**
 What the status of the safe decoder means: how a block fares with bytes behind it, cut short, or with less room.
 */
module LzoStatus {
  import opened Bytes
  import opened LzoDecode
  import opened LzoFormat
  import LzoParse

  // ---------------------------------------------------------------- an input and more bytes behind it

  /** The same loop, with more bytes in the input: equal, or the shorter input ends. */
  lemma {:induction false} ZeroRunLonger(inp: seq<byte>, t: seq<byte>, ip: nat, n: nat, limit: Status)
    requires ip < |inp|
    ensures || ZeroRun(inp, ip, n, limit) == ZeroRun(inp + t, ip, n, limit)
            || ZeroRun(inp, ip, n, limit) == Overrun(InputOverrun)
    decreases |inp| - ip
  {
    if inp[ip] == 0 && n + 255 <= MAX_T && ip + 1 < |inp| {
      ZeroRunLonger(inp, t, ip + 1, n + 255, limit);
    }
  }

  /** The decoder `a` of an input beside the decoder `b` of the same input with more bytes behind it. */
  predicate Cut(a: State, b: State) {
    || (a == b && a.pc != Halt(OK))
    || (a.pc == Halt(InputOverrun) && a.out <= b.out)
    || (a.pc == Halt(OK) && b == a.(pc := Halt(InputNotConsumed)))
  }

  lemma ReadyLonger(inp: seq<byte>, t: seq<byte>, cap: nat, s: State)
    requires Ready(inp, cap, s)
    ensures Ready(inp + t, cap, s)
  {}

  lemma LiteralsLonger(inp: seq<byte>, t: seq<byte>, cap: nat, s: State, ip: nat, n: nat)
    requires ip <= |inp|
    ensures Cut(Literals(inp, cap, s, ip, n), Literals(inp + t, cap, s, ip, n))
  {
    if ip + n <= |inp| {
      assert (inp + t)[ip..ip + n] == inp[ip..ip + n];
    }
  }

  lemma TopLonger(inp: seq<byte>, t: seq<byte>, cap: nat, s: State)
    requires Ready(inp, cap, s) && s.pc.Top?
    ensures Ready(inp + t, cap, s) && Cut(StepTop(inp, cap, s), StepTop(inp + t, cap, s))
  {
    hide ZeroRun, Literals;
    ReadyLonger(inp, t, cap, s);
    if s.ip + 3 <= |inp| {
      assert (inp + t)[s.ip] == inp[s.ip];
      ZeroRunLonger(inp, t, s.ip + 1, 0, InputOverrun);
      var n := inp[s.ip];
      var c := if n == 0 then ZeroRun(inp, s.ip + 1, 0, InputOverrun) else Got(n, s.ip + 1);
      if c.Got? {
        LiteralsLonger(inp, t, cap, s, c.ip, (if n == 0 then c.t + 15 else c.t) + 3);
      }
    }
  }

  lemma M3Longer(inp: seq<byte>, t: seq<byte>, cap: nat, s: State)
    requires Ready(inp, cap, s) && s.pc.Match? && 32 <= s.pc.t < 64
    ensures Ready(inp + t, cap, s) && Cut(StepM3(inp, cap, s), StepM3(inp + t, cap, s))
  {
    hide ZeroRun, Copy;
    ReadyLonger(inp, t, cap, s);
    ZeroRunLonger(inp, t, s.ip, 0, OutputOverrun);
    CopyGoesOn();
  }

  lemma M4Longer(inp: seq<byte>, t: seq<byte>, cap: nat, s: State)
    requires t != [] && Ready(inp, cap, s) && s.pc.Match? && 16 <= s.pc.t < 32
    ensures Ready(inp + t, cap, s) && Cut(StepM4(inp, cap, s), StepM4(inp + t, cap, s))
  {
    hide ZeroRun, Copy;
    ReadyLonger(inp, t, cap, s);
    ZeroRunLonger(inp, t, s.ip, 0, OutputOverrun);
    CopyGoesOn();
  }

  lemma CopyGoesOn()
    ensures forall cap, s, ip, off, len | 1 <= off :: Copy(cap, s, ip, off, len).pc != Halt(OK)
  {
    hide CopyMatch;
  }

  /** A step of the decoder with more bytes behind the input. */
  lemma StepLonger(inp: seq<byte>, t: seq<byte>, cap: nat, s: State)
    requires t != [] && Ready(inp, cap, s) && !s.pc.Halt?
    ensures Ready(inp + t, cap, s) && Cut(Step(inp, cap, s), Step(inp + t, cap, s))
  {
    hide StepTop, StepM3, StepM4, Copy;
    ReadyLonger(inp, t, cap, s);
    CopyGoesOn();
    if s.pc.Top? {
      TopLonger(inp, t, cap, s);
    } else if s.pc.Match? && 32 <= s.pc.t < 64 {
      M3Longer(inp, t, cap, s);
    } else if s.pc.Match? && 16 <= s.pc.t < 32 {
      M4Longer(inp, t, cap, s);
    } else if s.pc.MatchNext? && s.ip + s.pc.n <= |inp| {
      assert (inp + t)[s.ip..s.ip + s.pc.n] == inp[s.ip..s.ip + s.pc.n];
    }
  }

  /** The same for a run. */
  lemma {:induction false} RunLonger(inp: seq<byte>, t: seq<byte>, cap: nat, s: State)
    requires t != [] && Ready(inp, cap, s) && s.pc != Halt(OK)
    ensures Ready(inp + t, cap, s) && Cut(Run(inp, cap, s), Run(inp + t, cap, s))
    decreases |inp| - s.ip, Rank(s.pc)
  {
    hide Step;
    ReadyLonger(inp, t, cap, s);
    if !s.pc.Halt? {
      StepLonger(inp, t, cap, s);
      var r := Step(inp, cap, s);
      if r == Step(inp + t, cap, s) {
        RunLonger(inp, t, cap, r);
      }
    }
  }

  lemma StartLonger(inp: seq<byte>, t: seq<byte>, cap: nat)
    requires t != []
    ensures Cut(Start(inp, cap), Start(inp + t, cap))
  {
    hide Literals;
    if |inp| > 0 && inp[0] > 17 {
      LiteralsLonger(inp, t, cap, State(0, [], Top), 1, inp[0] - 17);
    }
  }

  /**
   More bytes behind an input: what was accepted is refused as not consumed, with the same output; what was refused
   for another reason than its end is refused just as before.
   */
  lemma BytesBehind(inp: seq<byte>, t: seq<byte>, cap: nat)
    requires t != []
    ensures var (s, x), (s1, x1) := Decode(inp, cap), Decode(inp + t, cap);
            && (s == OK ==> s1 == InputNotConsumed && x1 == x)
            && (s != OK && s != InputOverrun ==> s1 == s && x1 == x)
            && x <= x1
  {
    hide Step;
    StartLonger(inp, t, cap);
    if Start(inp, cap) == Start(inp + t, cap) {
      RunLonger(inp, t, cap, Start(inp, cap));
    }
  }

  /** A block that is accepted is refused as too short when it is cut anywhere. */
  lemma CutShort(inp: seq<byte>, n: nat, cap: nat)
    requires n < |inp| && Decode(inp, cap).0 == OK
    ensures Decode(inp[..n], cap).0 == InputOverrun && Decode(inp[..n], cap).1 <= Decode(inp, cap).1
  {
    hide Decode;
    assert inp[..n] + inp[n..] == inp;
    BytesBehind(inp[..n], inp[n..], cap);
  }

  // ---------------------------------------------------------------- less room

  /** The decoder `a` with room for `cap` bytes beside the decoder `b` with more room. */
  predicate Lack(a: State, b: State, cap: nat) {
    || a == b
    || (a.pc == Halt(OutputOverrun) && a.out <= b.out && (cap < |b.out| || b.pc == Halt(InputOverrun)))
  }

  lemma CopyRoom(cap: nat, more: nat, s: State, ip: nat, off: nat, len: nat)
    requires 1 <= off && cap <= more
    ensures Lack(Copy(cap, s, ip, off, len), Copy(more, s, ip, off, len), cap)
  {}

  lemma StepRoom(inp: seq<byte>, cap: nat, more: nat, s: State)
    requires cap <= more && Ready(inp, cap, s) && !s.pc.Halt?
    ensures Ready(inp, more, s) && Lack(Step(inp, cap, s), Step(inp, more, s), cap)
  {
    hide ZeroRun, Copy;
    forall ip, off, len | 1 <= off ensures Lack(Copy(cap, s, ip, off, len), Copy(more, s, ip, off, len), cap) {
      CopyRoom(cap, more, s, ip, off, len);
    }
  }

  lemma {:induction false} RunRoom(inp: seq<byte>, cap: nat, more: nat, s: State)
    requires cap <= more && Ready(inp, cap, s)
    ensures Ready(inp, more, s)
    ensures var a, b := Run(inp, cap, s), Run(inp, more, s);
            a == b || (a.pc == Halt(OutputOverrun) && a.out <= b.out && (cap < |b.out| || b.pc != Halt(OK)))
    decreases |inp| - s.ip, Rank(s.pc)
  {
    hide Step;
    if !s.pc.Halt? {
      StepRoom(inp, cap, more, s);
      var r := Step(inp, cap, s);
      if r == Step(inp, more, s) {
        RunRoom(inp, cap, more, r);
      }
    }
  }

  lemma RoomBetween(inp: seq<byte>, cap: nat, more: nat)
    requires cap <= more
    ensures var (s, x), (s1, x1) := Decode(inp, cap), Decode(inp, more);
            (s, x) == (s1, x1) || (s == OutputOverrun && x <= x1 && (cap < |x1| || s1 != OK))
  {
    hide Step;
    if Start(inp, cap) == Start(inp, more) {
      RunRoom(inp, cap, more, Start(inp, cap));
    }
  }

  /** A block that is accepted is so with any room for its output, and with less the output overruns. */
  lemma Room(inp: seq<byte>, cap: nat, room: nat)
    requires Decode(inp, room).0 == OK
    ensures var x := Decode(inp, room).1;
            && (|x| <= cap ==> Decode(inp, cap) == (OK, x))
            && (cap < |x| ==> Decode(inp, cap).0 == OutputOverrun && Decode(inp, cap).1 <= x)
  {
    hide Decode;
    if cap <= room {
      RoomBetween(inp, cap, room);
    } else {
      RoomBetween(inp, room, cap);
    }
  }

  /**
   What the compressor writes is accepted alone and whole, and with room for what it was made from: with bytes behind
   it, it is not consumed, cut short the input overruns, and with less room the output.
   */
  lemma CompressedIsExact(x: seq<byte>, addr: nat, cap: nat)
    requires |x| <= MAX_T
    ensures var c := LzoParse.Compressed(x, addr);
            && (|x| <= cap ==> Decode(c, cap) == (OK, x))
            && (|x| <= cap ==> forall t | t != [] :: Decode(c + t, cap) == (InputNotConsumed, x))
            && (|x| <= cap ==> forall n | 0 <= n < |c| :: Decode(c[..n], cap).0 == InputOverrun)
            && (cap < |x| ==> Decode(c, cap).0 == OutputOverrun && Decode(c, cap).1 <= x)
  {
    hide Decode, LzoParse.Compressed;
    var c := LzoParse.Compressed(x, addr);
    if |x| <= cap {
      RoundTrip(x, addr, cap);
      forall t | t != [] ensures Decode(c + t, cap) == (InputNotConsumed, x) {
        BytesBehind(c, t, cap);
      }
      forall n | 0 <= n < |c| ensures Decode(c[..n], cap).0 == InputOverrun {
        CutShort(c, n, cap);
      }
    } else {
      RoundTrip(x, addr, |x|);
      Room(c, cap, |x|);
    }
  }
}
