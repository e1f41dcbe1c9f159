/**
 `lzo1x_1_compress` itself: pointers into the input, a 16-bit dictionary overwritten per
 block, and an output buffer in which a byte already written is patched. Its output is the
 stream of LzoParse.Compressed, for which the round trip is proved.
 */
module LzoCompress {
  import opened Bytes
  import opened LzoFormat
  import opened LzoParse

  /** The `tt > 255` loops. */
  method PutLong(out: array<byte>, op0: nat, n: nat) returns (op: nat)
    requires 0 < n && op0 + |Long(n)| <= out.Length
    modifies out
    ensures op == op0 + |Long(n)| && out[..op] == old(out[..op0]) + Long(n)
  {
    var tt: nat := n;
    op := op0;
    while tt > 255
      invariant 0 < tt && op0 <= op && op + |Long(tt)| == op0 + |Long(n)|
      invariant out[..op] + Long(tt) == old(out[..op0]) + Long(n)
    {
      tt := tt - 255;
      out[op] := 0;
      assert out[..op + 1] + Long(tt) == out[..op] + ([0] + Long(tt));
      op := op + 1;
    }
    out[op] := tt;
    assert out[..op + 1] == out[..op] + [tt];
    op := op + 1;
  }

  /** The byte-by-byte literal copy that the wide copies stand for. */
  method PutBytes(x: seq<byte>, ii: nat, t: nat, out: array<byte>, op0: nat) returns (op: nat)
    requires ii + t <= |x| && op0 + t <= out.Length
    modifies out
    ensures op == op0 + t && out[..op] == old(out[..op0]) + x[ii..ii + t]
  {
    op := op0;
    while op < op0 + t
      invariant op0 <= op <= op0 + t
      invariant out[..op] == old(out[..op0]) + x[ii..ii + (op - op0)]
    {
      out[op] := x[ii + (op - op0)];
      assert x[ii..ii + (op - op0) + 1] == x[ii..ii + (op - op0)] + [x[ii + (op - op0)]];
      assert out[..op + 1] == out[..op] + [out[op]];
      op := op + 1;
    }
  }

  /** Header of a run of more than three literals. */
  method PutLitHeader(out: array<byte>, op0: nat, t: nat) returns (op: nat)
    requires 3 < t && op0 + |LitHeader(t)| <= out.Length
    modifies out
    ensures op == op0 + |LitHeader(t)| && out[..op] == old(out[..op0]) + LitHeader(t)
  {
    hide Long;
    ghost var before := out[..op0];
    if t <= 18 {
      out[op0] := t - 3;
      op := op0 + 1;
      assert out[..op] == before + [t - 3];
    } else {
      out[op0] := 0;
      assert out[..op0 + 1] == before + [0];
      op := PutLong(out, op0 + 1, t - 18);
      Joins(before, [0], Long(t - 18));
    }
  }

  /**
   Writes the pending literals `x[ls..ls + t]` behind the segments already encoded: up to
   three are announced by patching op[-2], more get a header.
   */
  method PutLiterals(x: seq<byte>, ls: nat, t: nat, out: array<byte>, op0: nat, ghost segs: seq<Seg>)
    returns (op: nat)
    requires ls + t <= |x| && op0 + |LitBytes(x[ls..ls + t])| <= out.Length
    requires Encodable(segs) && out[..op0] == Body(segs, 0)
    requires segs != [] || t == 0 || t > 3
    modifies out
    ensures op == op0 + |LitBytes(x[ls..ls + t])|
    ensures out[..op] == Body(segs, LowLits(x[ls..ls + t])) + LitBytes(x[ls..ls + t])
  {
    hide Body, OrLow, Encodable, Long;
    ghost var lit := x[ls..ls + t];
    assert LowLits(lit) == if t <= 3 then t else 0;
    op := op0;
    if t == 0 {
      assert out[..op] == Body(segs, 0) + [];
      return;
    }
    if t <= 3 {
      PatchBody(segs, t);
      out[op - 2] := OrLow(out[op - 2], t);
      assert out[..op] == Body(segs, 0)[op - 2 := OrLow(Body(segs, 0)[op - 2], t)];
      op := PutBytes(x, ls, t, out, op);
    } else {
      op := PutLitHeader(out, op, t);
      op := PutBytes(x, ls, t, out, op);
      Joins(Body(segs, 0), LitHeader(t), lit);
    }
  }

  /** Marker and length bytes of an M3 or M4 token. */
  method PutMatchHead(out: array<byte>, op0: nat, marker: byte, max: nat, len: nat) returns (op: nat)
    requires marker % 8 == 0 && 3 <= len && ((max == M3_MAX_LEN && marker == M3_MARKER) || (max == M4_MAX_LEN && marker < 32))
    requires op0 + (if len <= max then 1 else 1 + |Long(len - max)|) <= out.Length
    modifies out
    ensures op == op0 + (if len <= max then 1 else 1 + |Long(len - max)|)
    ensures out[..op] == old(out[..op0]) + (if len <= max then [marker + (len - 2)] else [marker] + Long(len - max))
  {
    ghost var before := out[..op0];
    if len <= max {
      out[op0] := marker + (len - 2);
      op := op0 + 1;
      assert out[..op] == before + [marker + (len - 2)];
    } else {
      out[op0] := marker;
      assert out[..op0 + 1] == before + [marker];
      op := PutLong(out, op0 + 1, len - max);
      Joins(before, [marker], Long(len - max));
    }
  }

  /** The two bytes at the end of every token. */
  method PutTwo(out: array<byte>, op0: nat, lo: byte, hi: byte) returns (op: nat)
    requires op0 + 2 <= out.Length
    modifies out
    ensures op == op0 + 2 && out[..op] == old(out[..op0]) + [lo, hi]
  {
    out[op0] := lo;
    out[op0 + 1] := hi;
    op := op0 + 2;
  }

  lemma ModShift(d: nat)
    ensures d * 4 % 0x100 == d % 64 * 4
  {
    var q, r := d / 64, d % 64;
    assert d * 4 == 0x100 * q + r * 4;
  }

  /** The shifts and casts of the source give the two fields of an M2 token. */
  lemma FieldsM2(off: nat, len: nat)
    requires 1 <= off && 3 <= len && IsM2(off, len)
    ensures Low8((len - 1) * 32 + (off - 1) % 8 * 4) == MatchLow(off, len) && Low8((off - 1) / 8) == MatchHigh(off, len)
  {
  }

  /** The shifts and casts of the source give the two offset bytes of an M3 or M4 token. */
  lemma FieldsM34(off: nat, len: nat)
    requires 1 <= off <= M4_MAX_OFFSET && 3 <= len && !IsM2(off, len)
    ensures var d := if off <= M3_MAX_OFFSET then off - 1 else off - 0x4000;
            Low8(d * 4) == MatchLow(off, len) && Low8(d / 64) == MatchHigh(off, len)
  {
    ModShift(if off <= M3_MAX_OFFSET then off - 1 else off - 0x4000);
  }

  /** The three token forms for a match. */
  method PutMatch(out: array<byte>, op0: nat, off: nat, len: nat) returns (op: nat)
    requires 1 <= off <= M4_MAX_OFFSET && 3 <= len
    requires op0 + |MatchBytes(off, len, 0)| <= out.Length
    modifies out
    ensures op == op0 + |MatchBytes(off, len, 0)|
    ensures out[..op] == old(out[..op0]) + MatchBytes(off, len, 0)
  {
    hide MatchLow, MatchHigh, Low8, MatchHead;
    if len <= M2_MAX_LEN && off <= M2_MAX_OFFSET {
      FieldsM2(off, len);
      var mOff := off - 1;
      op := PutTwo(out, op0, Low8((len - 1) * 32 + mOff % 8 * 4), Low8(mOff / 8));
      NoHeadM2(off, len);
      assert [] + [MatchLow(off, len), MatchHigh(off, len)] == [MatchLow(off, len), MatchHigh(off, len)];
    } else {
      FieldsM34(off, len);
      ghost var before := out[..op0];
      var mOff;
      op, mOff := PutLongHead(out, op0, off, len);
      op := PutTwo(out, op, Low8(mOff * 4), Low8(mOff / 64));
      Joins(before, MatchHead(off, len), [MatchLow(off, len), MatchHigh(off, len)]);
    }
  }

  lemma HighBit(d: nat)
    requires d < 0x8000
    ensures d / 0x800 / 8 % 2 == d / 0x4000
  {}

  lemma NoHeadM2(off: nat, len: nat)
    requires 1 <= off && 3 <= len && IsM2(off, len)
    ensures off <= M4_MAX_OFFSET && MatchHead(off, len) == []
  {}

  /** What is before the offset of an M3 or M4 token, and the offset as it is written. */
  method PutLongHead(out: array<byte>, op0: nat, off: nat, len: nat) returns (op: nat, mOff: nat)
    requires 1 <= off <= M4_MAX_OFFSET && 3 <= len && !IsM2(off, len)
    requires op0 + |MatchHead(off, len)| <= out.Length
    modifies out
    ensures op == op0 + |MatchHead(off, len)| && mOff == if off <= M3_MAX_OFFSET then off - 1 else off - 0x4000
    ensures out[..op] == old(out[..op0]) + MatchHead(off, len)
  {
    hide MatchLow, MatchHigh, Low8;
    if off <= M3_MAX_OFFSET {
      mOff := off - 1;
      op := PutMatchHead(out, op0, M3_MARKER, M3_MAX_LEN, len);
    } else {
      mOff := off - 0x4000;
      HighBit(mOff);
      op := PutMatchHead(out, op0, M4_MARKER + mOff / 0x800 / 8 % 2 * 8, M4_MAX_LEN, len);
    }
  }

  // ---------------------------------------------------------------- the match loop

  /** The eight-bytes-at-a-time extension of a match, and the count of equal low bytes at its end. */
  method ExtendMatch(x: seq<byte>, m: nat, ip: nat, ipEnd: nat) returns (mLen: nat)
    requires m < ip < ipEnd && ipEnd + 20 <= |x| && LE32(x, m) == LE32(x, ip)
    ensures mLen == MatchAt(x, m, ip, ipEnd)
  {
    mLen := 4;
    var v := FirstDiff(x, m + mLen, ip + mLen, 8);
    while v == 8
      invariant ip + mLen < ipEnd + 4 && v == FirstDiff(x, m + mLen, ip + mLen, 8)
      invariant MatchLen(x, m, ip, ipEnd, mLen) == MatchAt(x, m, ip, ipEnd)
      decreases |x| - mLen
    {
      mLen := mLen + 8;
      if ip + mLen >= ipEnd {
        return;
      }
      v := FirstDiff(x, m + mLen, ip + mLen, 8);
    }
    mLen := mLen + v;
  }

  /** Pending literals and a match, behind the segments already encoded. */
  method PutSegment(x: seq<byte>, ls: nat, t: nat, off: nat, len: nat, out: array<byte>, op0: nat, ghost segs: seq<Seg>)
    returns (op: nat)
    requires ls + t <= |x| && 1 <= off <= M4_MAX_OFFSET && 3 <= len
    requires Encodable(segs) && Encodable([Seg(x[ls..ls + t], off, len)])
    requires op0 <= out.Length && out[..op0] == Body(segs, 0)
    requires segs != [] || t == 0 || t > 3
    requires Encodable(segs + [Seg(x[ls..ls + t], off, len)])
    requires |Body(segs + [Seg(x[ls..ls + t], off, len)], 0)| <= out.Length
    modifies out
    ensures op <= out.Length && out[..op] == Body(segs + [Seg(x[ls..ls + t], off, len)], 0)
  {
    hide *;
    ghost var s := Seg(x[ls..ls + t], off, len);
    BodySnoc(segs, s, 0);
    PatchSize(segs, LowLits(s.lit));
    op := PutLiterals(x, ls, t, out, op0, segs);
    op := PutMatch(out, op, off, len);
  }

  /** Patching a count does not change how long an encoding is. */
  lemma {:induction false} PatchSize(segs: seq<Seg>, k: nat)
    requires Encodable(segs) && k <= 3
    ensures |Body(segs, k)| == |Body(segs, 0)|
  {
    if segs != [] {
      PatchSize(segs[1..], k);
    }
  }

  /** Everything encoded so far, plus one more segment, fits the documented output size. */
  lemma SegmentFits(segs: seq<Seg>, s: Seg, n: nat)
    requires Valid(segs, 0) && 4 <= s.len && 1 <= s.off <= Covered(segs) + |s.lit| && s.off <= M4_MAX_OFFSET
    requires Covered(segs) + |s.lit| + s.len <= n
    ensures Encodable(segs) && Encodable([s]) && Encodable(segs + [s]) && Valid(segs + [s], 0)
    ensures Covered(segs + [s]) == Covered(segs) + |s.lit| + s.len
    ensures |Body(segs + [s], 0)| <= n + n / 16
  {
    assert Valid([s], Covered(segs)) by {
      assert [s][0] == s && [s][1..] == [];
    }
    ValidConcat(segs, [s], 0);
    ValidEncodable(segs, 0);
    ValidEncodable([s], Covered(segs));
    ValidEncodable(segs + [s], 0);
    CoveredSnoc(segs, s);
    BodySize(segs + [s], 0, 0);
  }

  lemma {:induction false} CoveredSnoc(segs: seq<Seg>, s: Seg)
    ensures Covered(segs + [s]) == Covered(segs) + |s.lit| + s.len
  {
    if segs == [] {
      assert segs + [s] == [s];
      assert [s][1..] == [];
    } else {
      assert (segs + [s])[0] == segs[0] && (segs + [s])[1..] == segs[1..] + [s];
      CoveredSnoc(segs[1..], s);
    }
  }

  /** What has been written so far (`segs`) and what is still to be found make up `r`. */
  ghost predicate ScanState(x: seq<byte>, b: nat, end: nat, c: Cursor, segs: seq<Seg>, r: Parse)
  {
    && Good(x, b, end, c) && Valid(segs, 0) && Covered(segs) == c.ls
    && (segs == [] ==> c.ls == 0 && 5 <= c.ip)
    && var s := Scan(x, b, end, c);
       r.segs == segs + s.segs && r.rest == s.rest
  }

  /** No match at `ip`: the dictionary is updated and the scan moves on. */
  lemma ScanMiss(x: seq<byte>, b: nat, end: nat, c: Cursor, segs: seq<Seg>, r: Parse)
    requires ScanState(x, b, end, c, segs, r) && Live(x, b, end, c) && !Hit(x, b, end, c)
    ensures ScanState(x, b, end, Skip(x, b, end, c), segs, r)
  {
  }

  /** A match at `ip`: one more segment, and it fits. */
  lemma ScanHit(x: seq<byte>, b: nat, end: nat, c: Cursor, segs: seq<Seg>, r: Parse)
    requires ScanState(x, b, end, c, segs, r) && Live(x, b, end, c) && Hit(x, b, end, c)
    ensures ScanState(x, b, end, Jump(x, b, end, c), segs + [Found(x, b, end, c)], r)
    ensures Encodable(segs) && Encodable([Found(x, b, end, c)]) && Encodable(segs + [Found(x, b, end, c)])
    ensures |Body(segs + [Found(x, b, end, c)], 0)| <= |x| + |x| / 16
    ensures segs == [] ==> 3 < c.ip - c.ls
  {
    hide Valid, Expand, Body, Encodable, Covered, Found, Hit, Jump;
    var s := Found(x, b, end, c);
    SegmentFits(segs, s, |x|);
    var rest := Scan(x, b, end, Jump(x, b, end, c));
    assert segs + ([s] + rest.segs) == (segs + [s]) + rest.segs;
  }

  lemma ScanEnd(x: seq<byte>, b: nat, end: nat, c: Cursor, segs: seq<Seg>, r: Parse)
    requires ScanState(x, b, end, c, segs, r) && c.ip >= end - 20
    ensures r == Parse(segs, c.ls) && Valid(segs, 0) && Covered(segs) == c.ls
  {
    assert segs + [] == segs;
  }

  /** What the code computes at label `next`, in terms of the cursor. */
  lemma TryFacts(x: seq<byte>, b: nat, end: nat, c: Cursor, segs: seq<Seg>, r: Parse)
    requires b + 20 < end && ScanState(x, b, end, c, segs, r) && c.ip < end - 20
    ensures Live(x, b, end, c) && |c.dict| == D_SIZE && c.ls <= c.ii <= c.ip < end <= |x| && end - b <= MAX_BLOCK
    ensures b <= c.ii
    ensures Probe(x, b, end, c) == b + c.dict[Hash(LE32(x, c.ip))]
    ensures Probe(x, b, end, c) < c.ip
    ensures Hit(x, b, end, c) <==> LE32(x, c.ip) == LE32(x, Probe(x, b, end, c))
    ensures U16 == 0x1_0000
    ensures Remember(x, b, end, c) == c.dict[Hash(LE32(x, c.ip)) := (c.ip - b) % U16]
    ensures Skip(x, b, end, c) == Cursor(Remember(x, b, end, c), c.ip + 1 + (c.ip - c.ii) / 32, c.ii, c.ls)
    ensures Hit(x, b, end, c) ==>
              var ip := c.ip + Found(x, b, end, c).len;
              Jump(x, b, end, c) == Cursor(Remember(x, b, end, c), ip, ip, ip)
    ensures Hit(x, b, end, c) ==>
              var f := Found(x, b, end, c);
              && c.ip + f.len < end && 4 <= f.len && 1 <= f.off <= M4_MAX_OFFSET
              && f == Seg(x[c.ls..c.ip], c.ip - Probe(x, b, end, c), MatchAt(x, Probe(x, b, end, c), c.ip, end - 20))
  {
  }

  /** A match at `ip`: write the pending literals and the token. */
  method EmitMatch(x: seq<byte>, b: nat, end: nat, m: nat, ip: nat, ls: nat, out: array<byte>, op0: nat,
                   ghost c: Cursor, ghost segs: seq<Seg>, ghost r: Parse) returns (op: nat, mLen: nat)
    requires b + 20 < end && ScanState(x, b, end, c, segs, r) && Live(x, b, end, c) && Hit(x, b, end, c)
    requires ip == c.ip && ip < end - 20 && ls == c.ls && m == Probe(x, b, end, c)
    requires op0 <= out.Length && Encodable(segs) && out[..op0] == Body(segs, 0)
    requires out.Length >= |x| + |x| / 16 + 4
    modifies out
    ensures ScanState(x, b, end, Jump(x, b, end, c), segs + [Found(x, b, end, c)], r)
    ensures mLen == Found(x, b, end, c).len && Encodable(segs + [Found(x, b, end, c)])
    ensures op <= out.Length && out[..op] == Body(segs + [Found(x, b, end, c)], 0)
  {
    hide *;
    TryFacts(x, b, end, c, segs, r);
    ScanHit(x, b, end, c, segs, r);
    mLen := ExtendMatch(x, m, ip, end - 20);
    op := PutSegment(x, ls, ip - ls, ip - m, mLen, out, op0, segs);
  }

  /** A block starts with an empty dictionary and its first try behind the entry to the loop. */
  lemma ScanStart(x: seq<byte>, b: nat, end: nat, ti: nat, segs: seq<Seg>)
    requires ti <= b && b + 20 < end <= |x| && end - b <= MAX_BLOCK
    requires Valid(segs, 0) && Covered(segs) == b - ti && (segs == [] ==> ti == b)
    ensures Good(x, b, end, Cursor(ZeroDict(), FirstTry(b, ti), b, b - ti))
    ensures var t := Block(x, b, end, b - ti);
            var ip := b + if ti < 4 then 4 - ti else 0;
            ScanState(x, b, end, Cursor(ZeroDict(), ip + 1 + (ip - b) / 32, b, b - ti), segs, Parse(segs + t.segs, t.rest))
  {
    hide Scan, Expand, Valid, Covered;
  }

  /** `do_compress`: one block `x[b..end]`, with `ti0` literals still pending before it. */
  method DoCompress(x: seq<byte>, b: nat, end: nat, out: array<byte>, op0: nat, ti0: nat, dict: array<nat>,
                    ghost segs0: seq<Seg>) returns (op: nat, t: nat)
    requires ti0 <= b && b + 20 < end <= |x| && end - b <= MAX_BLOCK
    requires dict.Length == D_SIZE && dict[..] == ZeroDict() && (dict as object) != out
    requires out.Length >= |x| + |x| / 16 + 4
    requires Valid(segs0, 0) && Covered(segs0) == b - ti0 && (segs0 == [] ==> ti0 == b)
    requires Encodable(segs0) && op0 <= out.Length && out[..op0] == Body(segs0, 0)
    modifies out, dict
    ensures var r := Block(x, b, end, b - ti0);
            && t == end - r.rest && op <= out.Length && Encodable(segs0 + r.segs) && Valid(segs0 + r.segs, 0)
            && out[..op] == Body(segs0 + r.segs, 0) && Covered(segs0 + r.segs) == r.rest
  {
    hide *;
    ghost var target := Block(x, b, end, b - ti0);
    ghost var r := Parse(segs0 + target.segs, target.rest);
    ghost var segs := segs0;
    var ti: nat := ti0;
    var ip: nat, ii: nat := b, b;
    op := op0;
    ip := ip + if ti < 4 then 4 - ti else 0;
    ip := ip + 1 + (ip - ii) / 32;
    ghost var c := Cursor(dict[..], ip, ii, ii - ti);
    ScanStart(x, b, end, ti0, segs0);
    while ip < end - 20
      invariant ti <= ii && c == Cursor(dict[..], ip, ii, ii - ti) && ScanState(x, b, end, c, segs, r)
      invariant Encodable(segs) && op <= out.Length && out[..op] == Body(segs, 0)
      decreases end - ip
    {
      TryFacts(x, b, end, c, segs, r);
      var dv := LE32(x, ip);
      var dindex := Hash(dv);
      var mPos := b + dict[dindex];
      dict[dindex] := (ip - b) % U16;
      ghost var d := Remember(x, b, end, c);
      assert dict[..] == d;
      if dv != LE32(x, mPos) {
        ScanMiss(x, b, end, c, segs, r);
        c := Skip(x, b, end, c);
        ip := ip + 1 + (ip - ii) / 32;
      } else {
        ii := ii - ti;
        ti := 0;
        var mLen;
        op, mLen := EmitMatch(x, b, end, mPos, ip, ii, out, op, c, segs, r);
        segs := segs + [Found(x, b, end, c)];
        c := Jump(x, b, end, c);
        assert dict[..] == d;
        ip := ip + mLen;
        ii := ip;
      }
    }
    ScanEnd(x, b, end, c, segs, r);
    t := end - (ii - ti);
  }

  // ---------------------------------------------------------------- the block loop

  /** The blocks before `b` gave `segs`, with `b - ls` literals pending; the rest make up `r`. */
  ghost predicate BlockState(x: seq<byte>, addr: nat, b: nat, ls: nat, segs: seq<Seg>, r: Parse)
  {
    && ls <= b <= |x| && Valid(segs, 0) && Encodable(segs) && Covered(segs) == ls && (segs == [] ==> ls == 0)
    && var p := Blocks(x, addr, b, ls);
       r.segs == segs + p.segs && r.rest == p.rest
  }

  lemma BlockStart(x: seq<byte>, addr: nat)
    ensures BlockState(x, addr, 0, 0, [], Blocks(x, addr, 0, 0)) && Body([], 0) == []
  {
  }

  lemma BlockStep(x: seq<byte>, addr: nat, b: nat, ls: nat, ll: nat, segs: seq<Seg>, r: Parse)
    requires BlockState(x, addr, b, ls, segs, r)
    requires |x| - b > 20 && ll == (if |x| - b < MAX_BLOCK then |x| - b else MAX_BLOCK) && !StopBlocks(addr, b, ls, ll)
    ensures var p := Block(x, b, b + ll, ls);
            && Valid(segs + p.segs, 0) && Encodable(segs + p.segs) && Covered(segs + p.segs) == p.rest
            ==> BlockState(x, addr, b + ll, p.rest, segs + p.segs, r)
  {
    hide Valid, Covered, Encodable, StopBlocks, Expand, Blocks, Block;
    BlocksNext(x, addr, b, ls, ll);
    var p := Block(x, b, b + ll, ls);
    var q := Blocks(x, addr, b + ll, p.rest);
    assert segs + (p.segs + q.segs) == (segs + p.segs) + q.segs;
  }

  lemma BlocksNext(x: seq<byte>, addr: nat, b: nat, ls: nat, ll: nat)
    requires ls <= b && |x| - b > 20 && ll == (if |x| - b < MAX_BLOCK then |x| - b else MAX_BLOCK)
    requires !StopBlocks(addr, b, ls, ll)
    ensures var p := Block(x, b, b + ll, ls);
            var q := Blocks(x, addr, b + ll, p.rest);
            Blocks(x, addr, b, ls) == Parse(p.segs + q.segs, q.rest)
  {
    hide Valid, Covered, Expand, StopBlocks, Block;
  }

  /** What the loop and the code behind it need to know about where they are. */
  lemma BlockFacts(x: seq<byte>, addr: nat, b: nat, ls: nat, segs: seq<Seg>, r: Parse)
    requires BlockState(x, addr, b, ls, segs, r)
    ensures ls <= b <= |x| && Valid(segs, 0) && Encodable(segs) && Covered(segs) == ls && (segs == [] ==> ls == 0)
    ensures MAX_BLOCK == 49152
  {
  }

  lemma BlockEnd(x: seq<byte>, addr: nat, b: nat, ls: nat, ll: nat, segs: seq<Seg>)
    requires BlockState(x, addr, b, ls, segs, Blocks(x, addr, 0, 0))
    requires ll == (if |x| - b < MAX_BLOCK then |x| - b else MAX_BLOCK)
    requires |x| - b <= 20 || StopBlocks(addr, b, ls, ll)
    ensures Encodable(segs) && ls <= |x| && Compressed(x, addr) == Stream(segs, x[ls..])
    ensures |Stream(segs, x[ls..])| <= |x| + |x| / 16 + 4
    ensures |Body(segs, 0)| > 0 <==> segs != []
  {
    assert segs + [] == segs;
    CompressedSize(x, addr);
    if segs != [] {
      PatchBody(segs, 0);
    }
  }

  /** Trailing literals and end marker. */
  method PutTail(x: seq<byte>, ls: nat, out: array<byte>, op0: nat, ghost segs: seq<Seg>) returns (op: nat)
    requires ls <= |x| && Encodable(segs) && op0 <= out.Length && out[..op0] == Body(segs, 0)
    requires |Stream(segs, x[ls..])| <= out.Length && (|Body(segs, 0)| > 0 <==> segs != [])
    modifies out
    ensures op <= out.Length && out[..op] == Stream(segs, x[ls..])
  {
    var t := |x| - ls;
    ghost var tail := x[ls..];
    assert tail == x[ls..ls + t];
    op := op0;
    PatchSize(segs, LowLits(tail));
    hide Body, Encodable, MatchBytes, LitHeader;
    if t > 0 {
      if op == 0 && t <= 238 {
        out[op] := 17 + t;
        assert out[..1] == [17 + t];
        op := PutBytes(x, ls, t, out, 1);
        assert out[..op] == [17 + t] + tail;
      } else {
        LiteralCount(tail);
        op := PutLiterals(x, ls, t, out, op, segs);
      }
    } else {
      LiteralCount(tail);
      assert tail == [];
      assert Body(segs, 0) + [] == Body(segs, 0);
    }
    assert out[..op] + EOF_MARKER == Stream(segs, tail);
    op := PutEof(out, op);
  }

  method PutEof(out: array<byte>, op0: nat) returns (op: nat)
    requires op0 + 3 <= out.Length
    modifies out
    ensures op == op0 + 3 && out[..op] == old(out[..op0]) + EOF_MARKER
  {
    out[op0] := M4_MARKER + 1;
    out[op0 + 1] := 0;
    out[op0 + 2] := 0;
    op := op0 + 3;
  }

  lemma LiteralCount(lit: seq<byte>)
    ensures lit == [] ==> LitBytes(lit) == [] && LowLits(lit) == 0
  {
  }

  /**
   `lzo1x_1_compress`: `addr` is the address of the input buffer, `dict` the work memory, and
   the output buffer has the documented worst-case size, in_len + in_len / 16 + 64 + 3.
   */
  method Compress(x: seq<byte>, addr: nat, out: array<byte>, dict: array<nat>) returns (outLen: nat)
    requires out.Length >= |x| + |x| / 16 + 67 && dict.Length == D_SIZE && (dict as object) != out
    modifies out, dict
    ensures outLen <= out.Length && out[..outLen] == Compressed(x, addr)
  {
    hide *;
    var ip: nat, op: nat, t: nat := 0, 0, 0;
    ghost var segs: seq<Seg> := [];
    ghost var r := Blocks(x, addr, 0, 0);
    BlockStart(x, addr);
    while |x| - ip > 20
      invariant t <= ip <= |x| && BlockState(x, addr, ip, ip - t, segs, r)
      invariant op <= out.Length && Encodable(segs) && out[..op] == Body(segs, 0)
      decreases |x| - ip
    {
      BlockFacts(x, addr, ip, ip - t, segs, r);
      var ll := if |x| - ip < MAX_BLOCK then |x| - ip else MAX_BLOCK;
      if StopBlocks(addr, ip, ip - t, ll) {
        break;
      }
      BlockStep(x, addr, ip, ip - t, ll, segs, r);
      ClearDict(dict);
      ghost var p := Block(x, ip, ip + ll, ip - t);
      op, t := DoCompress(x, ip, ip + ll, out, op, t, dict, segs);
      segs := segs + p.segs;
      ip := ip + ll;
    }
    BlockFacts(x, addr, ip, ip - t, segs, r);
    BlockEnd(x, addr, ip, ip - t, if |x| - ip < MAX_BLOCK then |x| - ip else MAX_BLOCK, segs);
    t := t + (|x| - ip);
    outLen := PutTail(x, |x| - t, out, op, segs);
  }

  /** The memset of the work memory before each block. */
  method ClearDict(dict: array<nat>)
    requires dict.Length == D_SIZE
    modifies dict
    ensures dict[..] == ZeroDict()
  {
    forall i | 0 <= i < dict.Length {
      dict[i] := 0;
    }
  }
}
