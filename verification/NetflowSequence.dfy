/**
 Flow sequence numbers of NetFlow v5: the sender of `nfreplay`, which numbers its packets,
 and the receiver, which counts sequence failures. 32-bit counters wrap on both sides.
 */
module NetflowSequence {
  import opened Bytes

  /** NETFLOW_V5_MAX_RECORDS */
  const MAX_RECORDS: nat := 30

  /** What a packet header says: first flow number modulo 2^32, and how many records follow. */
  datatype Packet = Packet(seqno: nat, count: nat)

  /** Packet `k` of a stream of `n` records. */
  function PacketAt(n: nat, k: nat): Packet
    requires k * MAX_RECORDS < n
  {
    Packet(k * MAX_RECORDS % U32, if n - k * MAX_RECORDS < MAX_RECORDS then n - k * MAX_RECORDS else MAX_RECORDS)
  }

  /** How many packets `n` records fill, the last one perhaps partly. */
  function PacketCount(n: nat): nat {
    (n + MAX_RECORDS - 1) / MAX_RECORDS
  }

  /** The packets of a stream of `n` records. */
  function Stream(n: nat): (r: seq<Packet>)
    ensures |r| == PacketCount(n)
  {
    seq(PacketCount(n), k requires 0 <= k < PacketCount(n) => PacketAt(n, k))
  }

  // ---------------------------------------------------------------- sender

  /** The static state behind Add_v5_output_record. */
  class Sender {
    var first: bool
    var cnt: nat
    var sequence: int
    var lastSequence: int
    var lastCount: int
    var header: Packet

    ghost var total: nat

    /** `total` IPv4 records have been added since the output was initialised. */
    ghost predicate Valid()
      reads this
    {
      && cnt == total % MAX_RECORDS && (first ==> total == 0)
      && (if total == 0 then lastSequence == lastCount == 0
          else if cnt == 0 then lastSequence + lastCount == total
          else lastSequence == total - cnt && header == Packet(lastSequence % U32, cnt))
    }

    /** Init_v5_v7_output; `cnt` keeps an old value that the first record resets. */
    constructor ()
      ensures Valid() && total == 0
    {
      first := true;
      cnt := 0;
      sequence, lastSequence, lastCount := 0, 0, 0;
      header := Packet(0, 0);
      total := 0;
    }

    /**
     Add_v5_output_record, as far as numbering goes: the result is the packet to send when
     one is full. IPv6 records are skipped.
     */
    method Add(ipv6: bool) returns (flush: bool, packet: Packet)
      requires Valid()
      modifies this
      ensures Valid() && total == old(total) + (if ipv6 then 0 else 1)
      ensures flush <==> !ipv6 && total % MAX_RECORDS == 0
      ensures flush ==> Stream(total)[|Stream(total)| - 1] == packet
      ensures cnt > 0 ==> Stream(total)[|Stream(total)| - 1] == Packet(lastSequence % U32, cnt)
      ensures !ipv6 && !flush ==> cnt > 0 && header == Packet(lastSequence % U32, cnt)
    {
      hide Stream, PacketAt, PacketCount;
      flush, packet := false, header;
      if ipv6 {
        if total > 0 { LastPacket(total); }
        return;
      }
      if first {
        cnt := 0;
        first := false;
      }
      if cnt == 0 {
        sequence := lastSequence + lastCount;
        header := Packet(sequence % U32, 0);
        lastSequence := sequence;
      }
      cnt := cnt + 1;
      header := header.(count := cnt);
      NextCount(total);
      total := total + 1;
      LastPacket(total);
      if cnt == MAX_RECORDS {
        flush, packet := true, header;
        lastCount := cnt;
        cnt := 0;
      }
    }
  }

  lemma NextCount(n: nat)
    ensures (n + 1) % MAX_RECORDS == if n % MAX_RECORDS + 1 == MAX_RECORDS then 0 else n % MAX_RECORDS + 1
    ensures n % MAX_RECORDS < MAX_RECORDS
  {}

  /** The packet that the last of `n` records goes into. */
  lemma LastPacket(n: nat)
    requires n > 0
    ensures var s := Stream(n);
            && |s| > 0
            && (n % MAX_RECORDS > 0 ==> s[|s| - 1] == Packet((n - n % MAX_RECORDS) % U32, n % MAX_RECORDS))
            && (n % MAX_RECORDS == 0 ==> s[|s| - 1] == Packet((n - MAX_RECORDS) % U32, MAX_RECORDS))
  {
    var q, r := n / MAX_RECORDS, n % MAX_RECORDS;
    assert PacketCount(n) == if r > 0 then q + 1 else q;
  }

  // ---------------------------------------------------------------- receiver

  /** Does `q`, arriving right after `p`, count as a sequence failure? */
  predicate Fails(p: Packet, q: Packet) {
    (q.seqno - p.seqno) % U32 != p.count
  }

  /** Sequence failures in a stream of arriving packets. */
  function Failures(ps: seq<Packet>): nat {
    if |ps| < 2 then 0
    else Failures(ps[..|ps| - 1]) + (if Fails(ps[|ps| - 2], ps[|ps| - 1]) then 1 else 0)
  }

  /** A negative distance is corrected by one turn of the counter. */
  lemma Distance(a: int, b: int)
    requires 0 <= a < U32 && 0 <= b < U32
    ensures (a - b) % U32 == if a < b then a - b + U32 else a - b
  {}

  lemma FailuresNext(ps: seq<Packet>, p: Packet)
    ensures Failures(ps + [p]) == Failures(ps) + if ps != [] && Fails(ps[|ps| - 1], p) then 1 else 0
  {
    hide Fails;
    assert (ps + [p])[..|ps|] == ps;
  }

  lemma CountNext(f: nat)
    ensures (f % U32 + 1) % U32 == (f + 1) % U32
  {
    var q := f / U32;
    assert f + 1 == (f % U32 + 1) + U32 * q;
  }

  /** The sequence state of one exporter in Process_v5_v7. */
  class Receiver {
    var first: bool
    var sequence: int
    var lastSequence: int
    var distance: int
    var lastCount: int
    var sequenceFailure: nat

    ghost var seen: seq<Packet>

    ghost predicate Valid()
      reads this
    {
      && sequenceFailure == Failures(seen) % U32 && (first <==> seen == [])
      && (seen != [] ==> sequence == seen[|seen| - 1].seqno && lastCount == seen[|seen| - 1].count)
      && forall p :: p in seen ==> p.seqno < U32
    }

    constructor ()
      ensures Valid() && seen == []
    {
      first := true;
      sequence, lastSequence, distance, lastCount, sequenceFailure := 0, 0, 0, 0, 0;
      seen := [];
    }

    /** The sequence check at the head of a packet; more than 30 records abort the packet before it. */
    method Check(p: Packet) returns (ok: bool)
      requires Valid() && p.seqno < U32
      modifies this
      ensures Valid() && ok == (p.count <= MAX_RECORDS)
      ensures seen == if ok then old(seen) + [p] else old(seen)
    {
      hide Failures;
      if p.count > MAX_RECORDS {
        return false;
      }
      if first {
        lastSequence := p.seqno;
        sequence := lastSequence;
        first := false;
      } else {
        lastSequence := sequence;
        sequence := p.seqno;
        distance := sequence - lastSequence;
        if distance < 0 {
          distance := 0xffffffff + distance + 1;
        }
        Distance(p.seqno, lastSequence);
        if distance != lastCount {
          sequenceFailure := (sequenceFailure + 1) % U32;
        }
      }
      FailuresNext(seen, p);
      CountNext(Failures(seen));
      lastCount := p.count;
      seen := seen + [p];
      ok := true;
    }
  }

  // ---------------------------------------------------------------- sender against receiver

  /** The packets with numbers `idx`, in that order. */
  function Pick(n: nat, idx: seq<nat>): (r: seq<Packet>)
    requires forall i :: 0 <= i < |idx| ==> idx[i] < PacketCount(n)
    ensures |r| == |idx|
  {
    seq(|idx|, i requires 0 <= i < |idx| => Stream(n)[idx[i]])
  }

  predicate Increasing(idx: seq<nat>) {
    forall i :: 0 < i < |idx| ==> idx[i - 1] < idx[i]
  }

  /** A jump over `b - a - 1` lost packets goes unnoticed when that is a multiple of 2^31. */
  predicate Noticed(a: nat, b: nat)
    requires a < b
  {
    (b - a - 1) % 0x8000_0000 != 0
  }

  /** How many places where packets were dropped the receiver can notice. */
  function Gaps(idx: seq<nat>): nat
    requires Increasing(idx)
  {
    if |idx| < 2 then 0
    else Gaps(idx[..|idx| - 1]) + (if Noticed(idx[|idx| - 2], idx[|idx| - 1]) then 1 else 0)
  }

  /** 30 and 2^32 share only the factor 2. */
  lemma Thirty(g: int)
    ensures 30 * g % U32 == 0 <==> g % 0x8000_0000 == 0
  {
    if 30 * g % U32 == 0 {
      ThirtyDivides(g, 30 * g / U32);
    }
    if g % 0x8000_0000 == 0 {
      assert 30 * g == (15 * (g / 0x8000_0000)) * U32;
    }
  }

  lemma ThirtyDivides(g: int, c: int)
    requires 30 * g == c * U32
    ensures g % 0x8000_0000 == 0
  {
    // 15 * 1861152495 == 13 * 2^31 + 1
    assert g == (1861152495 * c - 13 * g) * 0x8000_0000;
  }

  /** The receiver's test on two packets of the stream, in terms of what was dropped between them. */
  lemma FailsExactly(n: nat, a: nat, b: nat)
    requires a < b < PacketCount(n)
    ensures Fails(Stream(n)[a], Stream(n)[b]) <==> Noticed(a, b)
  {
    var d := (b - a) * MAX_RECORDS;
    BeforeLast(n, a, b);
    ModDiff(b * MAX_RECORDS, a * MAX_RECORDS);
    assert b * MAX_RECORDS - a * MAX_RECORDS == d;
    var g := b - a - 1;
    assert d == 30 * g + MAX_RECORDS;
    Thirty(g);
    var k := 30 * g / U32;
    assert d == k * U32 + (30 * g % U32 + MAX_RECORDS);
    SmallResidue(30 * g % U32 + MAX_RECORDS, k);
  }

  lemma BeforeLast(n: nat, a: nat, b: nat)
    requires a < b < PacketCount(n)
    ensures Stream(n)[a] == Packet(a * MAX_RECORDS % U32, MAX_RECORDS)
    ensures Stream(n)[b].seqno == b * MAX_RECORDS % U32
  {
  }

  lemma SmallResidue(r: nat, k: nat)
    requires MAX_RECORDS <= r < U32 + MAX_RECORDS
    ensures (k * U32 + r) % U32 == MAX_RECORDS <==> r == MAX_RECORDS
  {
    if r < U32 {
      assert (k * U32 + r) % U32 == r;
    } else {
      assert k * U32 + r == (k + 1) * U32 + (r - U32);
      assert (k * U32 + r) % U32 == r - U32;
    }
  }

  /**
   For any in-order subsequence of the sender's packets the receiver counts exactly the
   noticeable gaps: every place where packets were dropped, unless their number is a
   multiple of 2^31, some 64 thousand million flows.
   */
  lemma {:induction false} FailuresAreGaps(n: nat, idx: seq<nat>)
    requires Increasing(idx) && forall i :: 0 <= i < |idx| ==> idx[i] < PacketCount(n)
    ensures Failures(Pick(n, idx)) == Gaps(idx)
    decreases |idx|
  {
    if |idx| >= 2 {
      hide Stream, Fails, Noticed;
      var m := |idx| - 1;
      FailuresAreGaps(n, idx[..m]);
      assert Pick(n, idx)[..m] == Pick(n, idx[..m]);
      FailsExactly(n, idx[m - 1], idx[m]);
    }
  }

  /** A lossless stream of any length, across counter wraps, has no failure. */
  lemma Lossless(n: nat)
    ensures Failures(Stream(n)) == 0
  {
    var idx := seq(PacketCount(n), (i: nat) => i);
    assert Pick(n, idx) == Stream(n);
    FailuresAreGaps(n, idx);
    NoGaps(idx);
  }

  lemma {:induction false} NoGaps(idx: seq<nat>)
    requires forall i :: 0 <= i < |idx| ==> idx[i] == i
    ensures Increasing(idx) && Gaps(idx) == 0
    decreases |idx|
  {
    if |idx| >= 2 {
      NoGaps(idx[..|idx| - 1]);
    }
  }

  /** Place `i` of the arriving packets follows a loss. */
  predicate Dropped(idx: seq<nat>, i: nat)
    requires 0 < i < |idx|
  {
    idx[i] != idx[i - 1] + 1
  }

  /** Fewer than 2^32 flows are missing before place `i`. */
  predicate Short(idx: seq<nat>, i: nat)
    requires 0 < i < |idx|
  {
    (idx[i] - idx[i - 1] - 1) * MAX_RECORDS < U32
  }

  /** The number of places behind which packets are missing. */
  function Losses(idx: seq<nat>): nat {
    if |idx| < 2 then 0
    else Losses(idx[..|idx| - 1]) + (if Dropped(idx, |idx| - 1) then 1 else 0)
  }

  /** Losses short of 2^32 flows are all counted, one failure per place. */
  lemma {:induction false} ShortGapsCounted(idx: seq<nat>)
    requires Increasing(idx) && forall i :: 0 < i < |idx| ==> Short(idx, i)
    ensures Gaps(idx) == Losses(idx)
    decreases |idx|
  {
    if |idx| >= 2 {
      var m := |idx| - 1;
      forall i | 0 < i < m ensures Short(idx[..m], i) {
        assert Short(idx, i);
      }
      ShortGapsCounted(idx[..m]);
      assert Short(idx, m);
    }
  }

  // ---------------------------------------------------------------- any sender against the receiver

  /** Flows in the first `k` packets of a stream. */
  function FlowsBefore(ps: seq<Packet>, k: nat): nat
    requires k <= |ps|
  {
    if k == 0 then 0 else FlowsBefore(ps, k - 1) + ps[k - 1].count
  }

  /** A sender that starts at flow `start` and puts 1 to 30 flows in a packet, as it likes, numbers them so. */
  ghost predicate Numbered(ps: seq<Packet>, start: nat) {
    forall k :: 0 <= k < |ps| ==>
      1 <= ps[k].count <= MAX_RECORDS && ps[k].seqno == (start + FlowsBefore(ps, k)) % U32
  }

  /** Flows in the packets between number `a` and number `b`. */
  function FlowsBetween(ps: seq<Packet>, a: nat, b: nat): (n: int)
    requires a < b <= |ps|
  {
    FlowsBefore(ps, b) - FlowsBefore(ps, a + 1)
  }

  lemma {:induction false} FlowsRise(ps: seq<Packet>, a: nat, b: nat)
    requires a <= b <= |ps|
    ensures FlowsBefore(ps, a) <= FlowsBefore(ps, b)
    decreases b
  {
    if a < b {
      FlowsRise(ps, a, b - 1);
    }
  }

  /** A number that is moved by `d` modulo 2^32 differs by a small `c` if and only if the rest is a multiple of 2^32. */
  lemma CountDiffers(x: nat, y: nat, c: nat, lost: nat)
    requires y == x + c + lost && c < U32
    ensures (y % U32 - x % U32) % U32 == c <==> lost % U32 == 0
  {
    ModDiff(y, x);
    RestIsMultiple(c, lost);
  }

  lemma RestIsMultiple(c: nat, lost: nat)
    requires c < U32
    ensures (c + lost) % U32 == c <==> lost % U32 == 0
  {
    var q, r := lost / U32, lost % U32;
    assert c + lost == c + r + U32 * q;
    assert (c + lost) % U32 == (c + r) % U32;
  }

  lemma NumberedAt(ps: seq<Packet>, start: nat, k: nat)
    requires Numbered(ps, start) && k < |ps|
    ensures ps[k].seqno == (start + FlowsBefore(ps, k)) % U32 && ps[k].count < U32
    ensures FlowsBefore(ps, k + 1) == FlowsBefore(ps, k) + ps[k].count
  {}

  /** The receiver's test on two packets: whether the flows that were dropped between them are a multiple of 2^32. */
  lemma FailsIfLost(ps: seq<Packet>, start: nat, a: nat, b: nat)
    requires Numbered(ps, start) && a < b < |ps|
    ensures Fails(ps[a], ps[b]) <==> FlowsBetween(ps, a, b) % U32 != 0
  {
    hide Numbered, FlowsBefore;
    FlowsRise(ps, a + 1, b);
    NumberedAt(ps, start, a);
    NumberedAt(ps, start, b);
    CountDiffers(start + FlowsBefore(ps, a), start + FlowsBefore(ps, b), ps[a].count, FlowsBetween(ps, a, b));
  }

  /** The packets with numbers `idx` of a stream, in that order. */
  function Chosen(ps: seq<Packet>, idx: seq<nat>): (r: seq<Packet>)
    requires forall i :: 0 <= i < |idx| ==> idx[i] < |ps|
    ensures |r| == |idx|
  {
    seq(|idx|, i requires 0 <= i < |idx| => ps[idx[i]])
  }

  /** The places where flows were dropped, but not a multiple of 2^32 of them. */
  function LossPlaces(ps: seq<Packet>, idx: seq<nat>): nat
    requires Increasing(idx) && forall i :: 0 <= i < |idx| ==> idx[i] < |ps|
  {
    if |idx| < 2 then 0
    else
      var m := |idx| - 1;
      LossPlaces(ps, idx[..m]) + (if FlowsBetween(ps, idx[m - 1], idx[m]) % U32 != 0 then 1 else 0)
  }

  /** However full its packets are, the failures of any in-order part of a sender's packets are the places of loss. */
  lemma {:induction false} FailuresAreLosses(ps: seq<Packet>, start: nat, idx: seq<nat>)
    requires Numbered(ps, start) && Increasing(idx) && forall i :: 0 <= i < |idx| ==> idx[i] < |ps|
    ensures Failures(Chosen(ps, idx)) == LossPlaces(ps, idx)
    decreases |idx|
  {
    hide Fails, Numbered, FlowsBetween, Chosen;
    ChosenSteps(ps, idx);
    if |idx| >= 2 {
      var m := |idx| - 1;
      FailuresAreLosses(ps, start, idx[..m]);
      FailsIfLost(ps, start, idx[m - 1], idx[m]);
    }
  }

  lemma ChosenSteps(ps: seq<Packet>, idx: seq<nat>)
    requires forall i :: 0 <= i < |idx| ==> idx[i] < |ps|
    ensures var c := Chosen(ps, idx);
            |c| == |idx| && (forall i :: 0 <= i < |idx| ==> c[i] == ps[idx[i]])
            && (idx != [] ==> c[..|idx| - 1] == Chosen(ps, idx[..|idx| - 1]))
  {}

  /** Without loss there is no failure, however full the packets are. */
  lemma {:induction false} NoLossNoFailure(ps: seq<Packet>, start: nat, n: nat)
    requires Numbered(ps, start) && n <= |ps|
    ensures Failures(ps[..n]) == 0
    decreases n
  {
    if n >= 2 {
      NoLossNoFailure(ps, start, n - 1);
      assert ps[..n][..n - 1] == ps[..n - 1];
      FailsIfLost(ps, start, n - 2, n - 1);
    }
  }
}
