/**
 The LZO1X bit stream written by `lzo1x_1_compress`: what a stream of literal runs and
 matches means, and which bytes stand for it.
 */
module LzoFormat {
  import opened Bytes

  const M2_MAX_LEN: nat := 8
  const M2_MAX_OFFSET: nat := 0x0800
  const M3_MAX_LEN: nat := 33
  const M3_MAX_OFFSET: nat := 0x4000
  const M4_MAX_LEN: nat := 9
  const M4_MAX_OFFSET: nat := 0xbfff
  const M3_MARKER: nat := 32
  const M4_MARKER: nat := 16

  /** A literal run followed by a match: copy `len` bytes from `off` bytes back. */
  datatype Seg = Seg(lit: seq<byte>, off: nat, len: nat)

  // ---------------------------------------------------------------- meaning

  /** The overlapping byte-by-byte copy that a match stands for. */
  function CopyMatch(out: seq<byte>, off: nat, len: nat): (r: seq<byte>)
    requires 1 <= off <= |out|
    ensures |r| == |out| + len && out <= r
    decreases len
  {
    if len == 0 then out else CopyMatch(out + [out[|out| - off]], off, len - 1)
  }

  /** Every match has at least four bytes, as all the compressor finds, and reaches back only into bytes already produced. */
  predicate Valid(segs: seq<Seg>, produced: nat)
  {
    segs == [] ||
    (var s := segs[0];
     && 4 <= s.len
     && 1 <= s.off <= produced + |s.lit|
     && s.off <= M4_MAX_OFFSET
     && Valid(segs[1..], produced + |s.lit| + s.len))
  }

  /** The bytes a list of segments appends to `out`. */
  function Expand(out: seq<byte>, segs: seq<Seg>): (r: seq<byte>)
    requires Valid(segs, |out|)
    ensures out <= r
    decreases |segs|
  {
    if segs == [] then out
    else Expand(CopyMatch(out + segs[0].lit, segs[0].off, segs[0].len), segs[1..])
  }

  /** How many input bytes a list of segments accounts for. */
  function Covered(segs: seq<Seg>): nat
  {
    if segs == [] then 0 else |segs[0].lit| + segs[0].len + Covered(segs[1..])
  }

  lemma {:induction false} ExpandLength(out: seq<byte>, segs: seq<Seg>)
    requires Valid(segs, |out|)
    ensures |Expand(out, segs)| == |out| + Covered(segs)
    decreases |segs|
  {
    if segs != [] {
      ExpandLength(CopyMatch(out + segs[0].lit, segs[0].off, segs[0].len), segs[1..]);
    }
  }

  lemma ValidCons(s: Seg, rest: seq<Seg>, produced: nat)
    requires 4 <= s.len && 1 <= s.off <= produced + |s.lit| && s.off <= M4_MAX_OFFSET
    requires Valid(rest, produced + |s.lit| + s.len)
    ensures Valid([s] + rest, produced)
  {
    assert ([s] + rest)[0] == s && ([s] + rest)[1..] == rest;
  }

  /** One more segment in front. */
  lemma ExpandCons(out: seq<byte>, s: Seg, rest: seq<Seg>)
    requires 4 <= s.len && 1 <= s.off <= |out| + |s.lit| && s.off <= M4_MAX_OFFSET
    requires Valid(rest, |out| + |s.lit| + s.len)
    ensures Valid([s] + rest, |out|)
    ensures Expand(out, [s] + rest) == Expand(CopyMatch(out + s.lit, s.off, s.len), rest)
  {
    var segs := [s] + rest;
    assert segs[0] == s && segs[1..] == rest;
  }

  lemma {:induction false} ValidConcat(s: seq<Seg>, t: seq<Seg>, produced: nat)
    requires Valid(s, produced) && Valid(t, produced + Covered(s))
    ensures Valid(s + t, produced)
    decreases |s|
  {
    if s == [] {
      assert s + t == t;
    } else {
      var u := s + t;
      assert u[0] == s[0] && u[1..] == s[1..] + t;
      ValidConcat(s[1..], t, produced + |s[0].lit| + s[0].len);
    }
  }

  lemma {:induction false} ExpandConcat(out: seq<byte>, s: seq<Seg>, t: seq<Seg>)
    requires Valid(s, |out|) && Valid(t, |out| + Covered(s)) && Valid(s + t, |out|)
    ensures |Expand(out, s)| == |out| + Covered(s)
    ensures Expand(out, s + t) == Expand(Expand(out, s), t)
    decreases |s|
  {
    hide CopyMatch;
    ExpandLength(out, s);
    if s == [] {
      assert s + t == t;
    } else {
      var u := s + t;
      assert u[0] == s[0] && u[1..] == s[1..] + t;
      ExpandConcat(CopyMatch(out + s[0].lit, s[0].off, s[0].len), s[1..], t);
    }
  }

  // ---------------------------------------------------------------- encoding

  /** `n > 0` written as floor((n-1)/255) zero bytes and a final byte in 1..255. */
  function Long(n: nat): (r: seq<byte>)
    requires n > 0
    ensures |r| == (n - 1) / 255 + 1
  {
    if n > 255 then [0] + Long(n - 255) else [n]
  }

  /** Header of a literal run of `t` bytes; runs of up to three have none (see LowLits). */
  function LitHeader(t: nat): (r: seq<byte>)
  {
    if t <= 3 then []
    else if t <= 18 then [t - 3]
    else [0] + Long(t - 18)
  }

  function LitBytes(lit: seq<byte>): seq<byte> {
    LitHeader(|lit|) + lit
  }

  /** The literal count stored in the low two bits of the match before the run. */
  function LowLits(lit: seq<byte>): (k: nat)
    ensures k <= 3
  {
    if |lit| <= 3 then |lit| else 0
  }

  /** Which of the three token forms a match takes. */
  predicate IsM2(off: nat, len: nat) {
    len <= M2_MAX_LEN && off <= M2_MAX_OFFSET
  }

  /** Length bytes in front of the two offset bytes; an M2 token has none. */
  function MatchHead(off: nat, len: nat): seq<byte>
    requires 1 <= off <= M4_MAX_OFFSET && 3 <= len
  {
    if IsM2(off, len) then []
    else if off <= M3_MAX_OFFSET then
      (if len <= M3_MAX_LEN then [M3_MARKER + (len - 2)] else [M3_MARKER] + Long(len - M3_MAX_LEN))
    else
      var hi := (off - 0x4000) / 0x4000 * 8;
      (if len <= M4_MAX_LEN then [M4_MARKER + hi + (len - 2)] else [M4_MARKER + hi] + Long(len - M4_MAX_LEN))
  }

  /** The last-but-one byte of the token before a literal count is or-ed into it. */
  function MatchLow(off: nat, len: nat): (r: byte)
    requires 1 <= off <= M4_MAX_OFFSET && 3 <= len
    ensures r % 4 == 0
  {
    if IsM2(off, len) then (len - 1) * 32 + (off - 1) % 8 * 4
    else if off <= M3_MAX_OFFSET then (off - 1) % 64 * 4
    else (off - 0x4000) % 64 * 4
  }

  function MatchHigh(off: nat, len: nat): byte
    requires 1 <= off <= M4_MAX_OFFSET && 3 <= len
  {
    if IsM2(off, len) then (off - 1) / 8
    else if off <= M3_MAX_OFFSET then (off - 1) / 64
    else (off - 0x4000) / 64 % 0x100
  }

  /** The token of a match whose last-but-one byte announces `k` literals. */
  function MatchBytes(off: nat, len: nat, k: nat): (r: seq<byte>)
    requires 1 <= off <= M4_MAX_OFFSET && 3 <= len && k <= 3
    ensures 2 <= |r|
  {
    MatchHead(off, len) + [MatchLow(off, len) + k, MatchHigh(off, len)]
  }

  /** The bytes of a list of segments; the last match announces `k` literals to come. */
  function Body(segs: seq<Seg>, k: nat): (r: seq<byte>)
    requires Encodable(segs) && k <= 3
  {
    if segs == [] then []
    else
      LitBytes(segs[0].lit)
      + MatchBytes(segs[0].off, segs[0].len, if |segs| == 1 then k else LowLits(segs[1].lit))
      + Body(segs[1..], k)
  }

  predicate Encodable(segs: seq<Seg>)
  {
    forall i :: 0 <= i < |segs| ==> 1 <= segs[i].off <= M4_MAX_OFFSET && 3 <= segs[i].len
  }

  lemma {:induction false} ValidEncodable(segs: seq<Seg>, produced: nat)
    requires Valid(segs, produced)
    ensures Encodable(segs)
  {
    if segs != [] {
      ValidEncodable(segs[1..], produced + |segs[0].lit| + segs[0].len);
      assert segs == [segs[0]] + segs[1..];
    }
  }

  const EOF_MARKER: seq<byte> := [M4_MARKER + 1, 0, 0]

  /** The whole compressed stream: segments, trailing literals, end marker. */
  function Stream(segs: seq<Seg>, tail: seq<byte>): seq<byte>
    requires Encodable(segs)
  {
    if segs == [] && 0 < |tail| <= 238 then [17 + |tail|] + tail + EOF_MARKER
    else Body(segs, LowLits(tail)) + LitBytes(tail) + EOF_MARKER
  }

  // ---------------------------------------------------------------- back-patching

  /** `b | t` for t in 0..3: only the low two bits can change. */
  function OrLow(b: byte, t: nat): byte
    requires t <= 3
  {
    b / 4 * 4 + (if b / 2 % 2 == 1 || t / 2 == 1 then 2 else 0) + (if b % 2 == 1 || t % 2 == 1 then 1 else 0)
  }

  /** Or-ing a literal count into op[-2] turns the token for 0 literals into the token for t. */
  lemma PatchMatch(off: nat, len: nat, t: nat)
    requires 1 <= off <= M4_MAX_OFFSET && 3 <= len && t <= 3
    ensures var m := MatchBytes(off, len, 0);
            m[|m| - 2] % 4 == 0 && m[|m| - 2 := OrLow(m[|m| - 2], t)] == MatchBytes(off, len, t)
  {
    assert OrLow(MatchLow(off, len), t) == MatchLow(off, len) + t;
  }

  /** Adding one more segment at the end of an encoding. */
  lemma {:induction false} BodySnoc(segs: seq<Seg>, s: Seg, k: nat)
    requires Encodable(segs) && Encodable([s]) && k <= 3
    ensures Encodable(segs + [s])
    ensures 1 <= s.off <= M4_MAX_OFFSET && 3 <= s.len
    ensures Body(segs + [s], k) == Body(segs, LowLits(s.lit)) + LitBytes(s.lit) + MatchBytes(s.off, s.len, k)
    decreases |segs|
  {
    hide LitBytes, MatchBytes, LowLits;
    var all := segs + [s];
    assert [s][0] == s;
    if segs == [] {
      assert all[1..] == [];
    } else {
      var rest := segs[1..];
      assert all[1..] == rest + [s];
      BodySnoc(rest, s, k);
      var a := LitBytes(segs[0].lit);
      var low := LowLits(if |segs| == 1 then s.lit else segs[1].lit);
      var m := MatchBytes(segs[0].off, segs[0].len, low);
      assert Body(all, k) == a + m + Body(rest + [s], k);
      assert Body(segs, LowLits(s.lit)) == a + m + Body(rest, LowLits(s.lit));
    }
  }

  lemma PatchConcat(pre: seq<byte>, m: seq<byte>, v: byte)
    requires 2 <= |m|
    ensures (pre + m)[|pre + m| - 2] == m[|m| - 2]
    ensures (pre + m)[|pre + m| - 2 := v] == pre + m[|m| - 2 := v]
  {
  }

  /**
   Writing up to three literals after at least one match: the byte two before the write
   position belongs to that match, its low bits are free, and or-ing the count into it
   gives the encoding that announces them.
   */
  lemma PatchBody(segs: seq<Seg>, t: nat)
    requires segs != [] && Encodable(segs) && t <= 3
    ensures var b := Body(segs, 0);
            2 <= |b| && b[|b| - 2] % 4 == 0 && b[|b| - 2 := OrLow(b[|b| - 2], t)] == Body(segs, t)
  {
    hide Body, LitBytes, MatchBytes, LowLits, OrLow;
    var n := |segs| - 1;
    var init, s := segs[..n], segs[n];
    assert segs == init + [s];
    BodySnoc(init, s, 0);
    BodySnoc(init, s, t);
    PatchMatch(s.off, s.len, t);
    var pre := Body(init, LowLits(s.lit)) + LitBytes(s.lit);
    var m := MatchBytes(s.off, s.len, 0);
    PatchConcat(pre, m, OrLow(m[|m| - 2], t));
  }

  // ---------------------------------------------------------------- size

  /** A match token is shorter than the bytes it stands for. */
  lemma MatchShrinks(off: nat, len: nat, k: nat)
    requires 1 <= off <= M4_MAX_OFFSET && 4 <= len && k <= 3
    ensures |MatchBytes(off, len, k)| < len
  {
  }

  lemma LitBytesSize(lit: seq<byte>)
    ensures |LitBytes(lit)| <= |lit| + |lit| / 16 + 1
  {
  }

  /** Headers of literal runs are paid for by the run or by the match behind it. */
  lemma {:induction false} BodySize(segs: seq<Seg>, produced: nat, k: nat)
    requires Valid(segs, produced) && Encodable(segs) && k <= 3
    ensures |Body(segs, k)| <= Covered(segs) + Covered(segs) / 16
    decreases |segs|
  {
    if segs != [] {
      var s := segs[0];
      MatchShrinks(s.off, s.len, if |segs| == 1 then k else LowLits(segs[1].lit));
      LitBytesSize(s.lit);
      BodySize(segs[1..], produced + |s.lit| + s.len, k);
    }
  }

  /** The compressed stream is never longer than n + n/16 + 4 bytes. */
  lemma StreamSize(segs: seq<Seg>, tail: seq<byte>)
    requires Valid(segs, 0) && Encodable(segs)
    ensures var n := Covered(segs) + |tail|; |Stream(segs, tail)| <= n + n / 16 + 4
  {
    BodySize(segs, 0, LowLits(tail));
    LitBytesSize(tail);
  }
}
