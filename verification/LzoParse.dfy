/**
 The greedy parser inside `lzo1x_1_compress`: how the hash dictionary and the skipping
 literal scan cut the input into literal runs and matches. Positions are indices into the
 whole input `x`; a block is `x[b..end]`.
 */
module LzoParse {
  import opened Bytes
  import opened LzoFormat

  const D_SIZE: nat := 0x4000
  const MAX_BLOCK: nat := 49152

  /** Result of parsing: the segments found and where the unmatched tail starts. */
  datatype Parse = Parse(segs: seq<Seg>, rest: nat)

  function LE32(x: seq<byte>, p: nat): nat
    requires p + 4 <= |x|
  {
    LE(x[p..p + 4])
  }

  /** DINDEX: multiplicative hash of four bytes, kept to fourteen bits. */
  function Hash(dv: nat): (d: nat)
    ensures d < D_SIZE
  {
    0x1824429d * dv % U32 / 0x4_0000 % D_SIZE
  }

  /** The `len` bytes at `m` and at `p` are the same. */
  predicate Same(x: seq<byte>, m: nat, p: nat, len: nat)
    requires m <= p && p + len <= |x|
  {
    x[m..m + len] == x[p..p + len]
  }

  lemma SameJoin(x: seq<byte>, m: nat, p: nat, k: nat, n: nat)
    requires m <= p && p + k + n <= |x|
    requires Same(x, m, p, k) && Same(x, m + k, p + k, n)
    ensures Same(x, m, p, k + n)
  {
    assert x[m..m + k + n] == x[m..m + k] + x[m + k..m + k + n];
    assert x[p..p + k + n] == x[p..p + k] + x[p + k..p + k + n];
  }

  lemma SameCons(x: seq<byte>, m: nat, p: nat, n: nat)
    requires m <= p && p + 1 + n <= |x| && x[m] == x[p] && Same(x, m + 1, p + 1, n)
    ensures Same(x, m, p, 1 + n)
  {
    assert x[m..m + 1 + n] == [x[m]] + x[m + 1..m + 1 + n];
    assert x[p..p + 1 + n] == [x[p]] + x[p + 1..p + 1 + n];
  }

  lemma SameSplit(x: seq<byte>, m: nat, p: nat, len: nat)
    requires m <= p && p + len <= |x| && 0 < len && Same(x, m, p, len)
    ensures x[m] == x[p] && Same(x, m + 1, p + 1, len - 1)
  {
    assert x[m] == x[m..m + len][0] && x[p] == x[p..p + len][0];
    assert x[m + 1..m + len] == x[m..m + len][1..];
    assert x[p + 1..p + len] == x[p..p + len][1..];
  }

  /** First of the `n` byte pairs at `m` and `p` that differ, `n` if none does. */
  function FirstDiff(x: seq<byte>, m: nat, p: nat, n: nat): (r: nat)
    requires m <= p && p + n <= |x|
    ensures r <= n && Same(x, m, p, r)
    ensures r < n ==> x[m + r] != x[p + r]
    decreases n
  {
    if n == 0 || x[m] != x[p] then 0
    else
      var r := FirstDiff(x, m + 1, p + 1, n - 1);
      SameCons(x, m, p, r);
      1 + r
  }

  /** Equal hash words mean four equal bytes. */
  lemma LE32Equal(x: seq<byte>, m: nat, ip: nat)
    requires m <= ip && ip + 4 <= |x|
    ensures LE32(x, m) == LE32(x, ip) <==> Same(x, m, ip, 4)
  {
    LEInjective(x[m..m + 4], x[ip..ip + 4]);
  }

  /** Length of the match of `x[ip..]` with `x[m..]`, extended from `len` eight bytes at a time. */
  function MatchLen(x: seq<byte>, m: nat, ip: nat, ipEnd: nat, len: nat): (r: nat)
    requires m < ip && ip + len < ipEnd + 4 && ipEnd + 20 <= |x|
    ensures len <= r && ip + r < ipEnd + 12
    decreases |x| - len
  {
    var d := FirstDiff(x, m + len, ip + len, 8);
    if d < 8 || ip + len + 8 >= ipEnd then len + d
    else MatchLen(x, m, ip, ipEnd, len + 8)
  }

  /** The bytes counted do match, and the count ends at a mismatch or in the last bytes of the block. */
  lemma {:induction false} MatchLenSame(x: seq<byte>, m: nat, ip: nat, ipEnd: nat, len: nat)
    requires m < ip && ip + len < ipEnd + 4 && ipEnd + 20 <= |x| && Same(x, m, ip, len)
    ensures var r := MatchLen(x, m, ip, ipEnd, len);
            Same(x, m, ip, r) && (ip + r >= ipEnd || x[m + r] != x[ip + r])
    decreases |x| - len
  {
    hide Same, FirstDiff;
    var d := FirstDiff(x, m + len, ip + len, 8);
    SameJoin(x, m, ip, len, d);
    if d == 8 && ip + len + 8 < ipEnd {
      MatchLenSame(x, m, ip, ipEnd, len + 8);
    }
  }

  /** The match taken once the first four bytes at `m` and `ip` have been found equal. */
  function MatchAt(x: seq<byte>, m: nat, ip: nat, ipEnd: nat): (r: nat)
    requires m < ip < ipEnd && ipEnd + 20 <= |x| && LE32(x, m) == LE32(x, ip)
    ensures 4 <= r && ip + r < ipEnd + 12 && Same(x, m, ip, r)
    ensures ip + r >= ipEnd || x[m + r] != x[ip + r]
  {
    LE32Equal(x, m, ip);
    MatchLenSame(x, m, ip, ipEnd, 4);
    MatchLen(x, m, ip, ipEnd, 4)
  }

  /** Copying from where the input repeats itself reproduces the input, even when the ranges overlap. */
  lemma {:induction false} CopyRepeats(x: seq<byte>, m: nat, ip: nat, len: nat)
    requires m < ip && ip + len <= |x| && Same(x, m, ip, len)
    ensures CopyMatch(x[..ip], ip - m, len) == x[..ip + len]
    decreases len
  {
    if len > 0 {
      SameSplit(x, m, ip, len);
      assert x[..ip] + [x[..ip][m]] == x[..ip + 1];
      CopyRepeats(x, m + 1, ip + 1, len - 1);
    }
  }

  /** A literal run up to `ip` and a true match there account for the input up to `ip + s.len`. */
  lemma MatchStep(x: seq<byte>, ls: nat, ip: nat, s: Seg, rest: seq<Seg>)
    requires ls <= ip && ip + s.len <= |x| && 4 <= s.len && 1 <= s.off <= ip && s.off <= M4_MAX_OFFSET
    requires s.lit == x[ls..ip] && Same(x, ip - s.off, ip, s.len) && Valid(rest, ip + s.len)
    ensures Valid([s] + rest, ls) && Expand(x[..ls], [s] + rest) == Expand(x[..ip + s.len], rest)
  {
    hide Expand, Valid, CopyMatch, Same;
    assert |x[..ls]| + |s.lit| + s.len == ip + s.len;
    ExpandCons(x[..ls], s, rest);
    assert x[..ls] + s.lit == x[..ip];
    CopyRepeats(x, ip - s.off, ip, s.len);
  }

  /** Every dictionary entry points before `ip`, inside the block that starts at `b`. */
  predicate DictOk(dict: seq<nat>, b: nat, ip: nat)
  {
    |dict| == D_SIZE && forall d :: 0 <= d < D_SIZE ==> b + dict[d] < ip
  }

  /**
   The compressor at label `next`: the dictionary, the position `ip` tried, the end `ii` of
   the last match (or the block start), and the first literal `ls` not yet written.
   */
  datatype Cursor = Cursor(dict: seq<nat>, ip: nat, ii: nat, ls: nat)

  predicate Good(x: seq<byte>, b: nat, end: nat, c: Cursor)
  {
    && b + 20 < end <= |x| && end - b <= MAX_BLOCK
    && c.ls <= c.ii <= c.ip && b <= c.ii < end && DictOk(c.dict, b, c.ip)
  }

  /** Far enough from the end of the block to try for a match. */
  predicate Live(x: seq<byte>, b: nat, end: nat, c: Cursor) {
    Good(x, b, end, c) && c.ip < end - 20
  }

  /** The position the dictionary proposes. */
  function Probe(x: seq<byte>, b: nat, end: nat, c: Cursor): (m: nat)
    requires Live(x, b, end, c)
    ensures m < c.ip && c.ip - m <= M4_MAX_OFFSET
  {
    b + c.dict[Hash(LE32(x, c.ip))]
  }

  predicate Hit(x: seq<byte>, b: nat, end: nat, c: Cursor)
    requires Live(x, b, end, c)
  {
    LE32(x, Probe(x, b, end, c)) == LE32(x, c.ip)
  }

  function Remember(x: seq<byte>, b: nat, end: nat, c: Cursor): (d: seq<nat>)
    requires Live(x, b, end, c)
    ensures forall ip :: c.ip < ip ==> DictOk(d, b, ip)
  {
    c.dict[Hash(LE32(x, c.ip)) := c.ip - b]
  }

  /** After a miss: skip ahead, faster the longer nothing has matched. */
  function Skip(x: seq<byte>, b: nat, end: nat, c: Cursor): (r: Cursor)
    requires Live(x, b, end, c)
    ensures Good(x, b, end, r) && c.ip < r.ip && r.ls == c.ls
  {
    Cursor(Remember(x, b, end, c), c.ip + 1 + (c.ip - c.ii) / 32, c.ii, c.ls)
  }

  /** The segment written on a hit. */
  function Found(x: seq<byte>, b: nat, end: nat, c: Cursor): (s: Seg)
    requires Live(x, b, end, c) && Hit(x, b, end, c)
    ensures s.lit == x[c.ls..c.ip] && 1 <= s.off <= c.ip && s.off <= M4_MAX_OFFSET
    ensures 4 <= s.len && c.ip + s.len + 8 < end && Same(x, c.ip - s.off, c.ip, s.len)
  {
    var m := Probe(x, b, end, c);
    Seg(x[c.ls..c.ip], c.ip - m, MatchAt(x, m, c.ip, end - 20))
  }

  /** After a hit: go on behind the match. */
  function Jump(x: seq<byte>, b: nat, end: nat, c: Cursor): (r: Cursor)
    requires Live(x, b, end, c) && Hit(x, b, end, c)
    ensures Good(x, b, end, r) && c.ip < r.ip && r.ip == r.ls == c.ip + Found(x, b, end, c).len
  {
    var ip := c.ip + Found(x, b, end, c).len;
    Cursor(Remember(x, b, end, c), ip, ip, ip)
  }

  /** The scan of a block from cursor `c` on. */
  function Scan(x: seq<byte>, b: nat, end: nat, c: Cursor): (r: Parse)
    requires Good(x, b, end, c)
    ensures c.ls <= r.rest <= end && Valid(r.segs, c.ls)
    ensures r.segs == [] ==> r.rest == c.ls
    ensures r.segs != [] ==> c.ip - c.ls <= |r.segs[0].lit|
    decreases end - c.ip
  {
    if c.ip >= end - 20 then Parse([], c.ls)
    else if !Hit(x, b, end, c) then Scan(x, b, end, Skip(x, b, end, c))
    else Behind(x, b, end, c, Scan(x, b, end, Jump(x, b, end, c)))
  }

  /** The match at the cursor in front of what was found behind it. */
  function Behind(x: seq<byte>, b: nat, end: nat, c: Cursor, r: Parse): (p: Parse)
    requires Live(x, b, end, c) && Hit(x, b, end, c) && Valid(r.segs, Jump(x, b, end, c).ls)
    ensures p.rest == r.rest && Valid(p.segs, c.ls) && p.segs != [] && p.segs[0] == Found(x, b, end, c)
  {
    hide Found, Jump, Hit, Same, DictOk, Valid, Live;
    Widths(x, b, end, c);
    Before(Found(x, b, end, c), c.ls, r)
  }

  lemma Widths(x: seq<byte>, b: nat, end: nat, c: Cursor)
    requires Live(x, b, end, c) && Hit(x, b, end, c)
    ensures var s := Found(x, b, end, c); |s.lit| == c.ip - c.ls && c.ls + |s.lit| + s.len == Jump(x, b, end, c).ls
  {
    hide Found, Jump, Hit, Same, DictOk;
  }

  /** A segment in front of what was found behind it. */
  function Before(s: Seg, ls: nat, r: Parse): (p: Parse)
    requires 4 <= s.len && 1 <= s.off <= ls + |s.lit| && s.off <= M4_MAX_OFFSET
    requires Valid(r.segs, ls + |s.lit| + s.len)
    ensures p.rest == r.rest && Valid(p.segs, ls) && p.segs != [] && p.segs[0] == s
  {
    ValidCons(s, r.segs, ls);
    Parse([s] + r.segs, r.rest)
  }

  /** What a scan finds rebuilds the input, up to where its tail starts. */
  lemma {:induction false} ScanMeaning(x: seq<byte>, b: nat, end: nat, c: Cursor)
    requires Good(x, b, end, c)
    ensures var r := Scan(x, b, end, c); Expand(x[..c.ls], r.segs) == x[..r.rest]
    decreases end - c.ip
  {
    hide Valid, Same, DictOk, Hit, Remember, Probe, Found, CopyMatch, Skip, Jump;
    if c.ip < end - 20 {
      if !Hit(x, b, end, c) {
        ScanMeaning(x, b, end, Skip(x, b, end, c));
      } else {
        ScanMeaning(x, b, end, Jump(x, b, end, c));
        MatchStep(x, c.ls, c.ip, Found(x, b, end, c), Scan(x, b, end, Jump(x, b, end, c)).segs);
      }
    }
  }

  function ZeroDict(): (d: seq<nat>)
    ensures |d| == D_SIZE && forall i :: 0 <= i < D_SIZE ==> d[i] == 0
  {
    seq(D_SIZE, _ => 0)
  }

  /** First position tried in a block, after the detour over `literal` on entry. */
  function FirstTry(b: nat, ti: nat): (ip: nat)
    ensures b < ip && ip - b + ti >= 5
  {
    var ip := b + (if ti < 4 then 4 - ti else 0);
    ip + 1 + (ip - b) / 32
  }

  /** One call of `do_compress` on `x[b..end]` with literals pending from `ls` on. */
  function Block(x: seq<byte>, b: nat, end: nat, ls: nat): (r: Parse)
    requires ls <= b && b + 20 < end <= |x| && end - b <= MAX_BLOCK
    ensures ls <= r.rest <= end && Valid(r.segs, ls)
    ensures Expand(x[..ls], r.segs) == x[..r.rest]
    ensures r.segs == [] ==> r.rest == ls
    ensures r.segs != [] ==> 5 <= |r.segs[0].lit|
  {
    var c := Cursor(ZeroDict(), FirstTry(b, b - ls), b, ls);
    ScanMeaning(x, b, end, c);
    Scan(x, b, end, c)
  }

  /**
   The test that leaves the block loop: the address `addr + b + ll` plus (t + ll)/32 does
   not get past itself, because nothing is added or because the sum wraps around.
   */
  predicate StopBlocks(addr: nat, b: nat, ls: nat, ll: nat)
    requires ls <= b
  {
    var e := (addr + b + ll) % U64;
    (e + (b - ls + ll) / 32) % U64 <= e
  }

  /** All blocks from `b` on; `addr` is the address of the input buffer. */
  function Blocks(x: seq<byte>, addr: nat, b: nat, ls: nat): (r: Parse)
    requires ls <= b <= |x|
    ensures ls <= r.rest <= |x| && Valid(r.segs, ls)
    ensures Expand(x[..ls], r.segs) == x[..r.rest]
    ensures r.segs == [] ==> r.rest == ls
    ensures r.segs != [] ==> 5 <= |r.segs[0].lit|
    decreases |x| - b
  {
    var l := |x| - b;
    var ll := if l < MAX_BLOCK then l else MAX_BLOCK;
    if l <= 20 || StopBlocks(addr, b, ls, ll) then Parse([], ls)
    else
      var p := Block(x, b, b + ll, ls);
      var q := Blocks(x, addr, b + ll, p.rest);
      Join(x, ls, p, q)
  }

  function Join(x: seq<byte>, ls: nat, p: Parse, q: Parse): (r: Parse)
    requires ls <= p.rest <= q.rest <= |x| && Valid(p.segs, ls) && Valid(q.segs, p.rest)
    requires Expand(x[..ls], p.segs) == x[..p.rest] && Expand(x[..p.rest], q.segs) == x[..q.rest]
    requires p.segs == [] || 5 <= |p.segs[0].lit|
    requires q.segs == [] || p.segs != [] || 5 <= |q.segs[0].lit|
    ensures Valid(r.segs, ls) && r.rest == q.rest && Expand(x[..ls], r.segs) == x[..r.rest]
    ensures r.segs == [] ==> p.segs == q.segs == []
    ensures r.segs != [] ==> 5 <= |r.segs[0].lit|
  {
    JoinMeans(x, ls, p, q);
    Parse(p.segs + q.segs, q.rest)
  }

  lemma JoinMeans(x: seq<byte>, ls: nat, p: Parse, q: Parse)
    requires ls <= p.rest <= q.rest <= |x| && Valid(p.segs, ls) && Valid(q.segs, p.rest)
    requires Expand(x[..ls], p.segs) == x[..p.rest] && Expand(x[..p.rest], q.segs) == x[..q.rest]
    ensures Valid(p.segs + q.segs, ls) && Expand(x[..ls], p.segs + q.segs) == x[..q.rest]
  {
    hide Expand, Valid, Covered;
    ExpandLength(x[..ls], p.segs);
    ValidConcat(p.segs, q.segs, ls);
    ExpandConcat(x[..ls], p.segs, q.segs);
  }

  /** The bytes `lzo1x_1_compress` writes for `x`. */
  function Compressed(x: seq<byte>, addr: nat): seq<byte>
  {
    var p := Blocks(x, addr, 0, 0);
    ValidEncodable(p.segs, 0);
    Stream(p.segs, x[p.rest..])
  }

  // ---------------------------------------------------------------- meaning

  /** The documented worst case, and better: at most n + n/16 + 4 bytes for n bytes. */
  lemma CompressedSize(x: seq<byte>, addr: nat)
    ensures |Compressed(x, addr)| <= |x| + |x| / 16 + 4
  {
    var p := Blocks(x, addr, 0, 0);
    ValidEncodable(p.segs, 0);
    ExpandLength([], p.segs);
    assert x[..0] == [];
    StreamSize(p.segs, x[p.rest..]);
  }
}
