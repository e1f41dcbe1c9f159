/**
 Absolute flow times from 32-bit router uptimes: the time logic of the NetFlow v1 and v5/v7
 receivers, in the 64-bit unsigned arithmetic of the source, and exactly when it is right.
 */
module NetflowTime {
  import opened Bytes

  /** Packet header: wall-clock time of the export and uptime of the router at that moment. */
  datatype Header = Header(unixSecs: nat, unixNsecs: nat, sysUptime: nat)

  predicate IsHeader(h: Header) {
    h.unixSecs < U32 && h.unixNsecs < U32 && h.sysUptime < U32
  }

  /** Export time in milliseconds. */
  function ExportMs(h: Header): nat {
    h.unixSecs * 1000 + h.unixNsecs / 1_000_000
  }

  /** It is the time of the header, seconds and nanoseconds, in whole milliseconds. */
  lemma ExportMsIs(h: Header)
    ensures var ns := h.unixSecs * 1_000_000_000 + h.unixNsecs;
            1_000_000 * ExportMs(h) <= ns < 1_000_000 * (ExportMs(h) + 1)
  {}

  /** The slack of the v5 receiver for routers that report flows ending after the export. */
  const SLACK: int := 100000

  // ---------------------------------------------------------------- the code

  /** A value in 64-bit unsigned arithmetic. */
  function W64(a: int): (w: nat)
    ensures w < U64
  {
    a % U64
  }

  /** 64-bit sums may be reduced at any point. */
  lemma Wrap(a: int, b: int)
    ensures W64(W64(a) + b) == W64(a + b)
  {
    Wrap64(a, b);
  }

  /** The time section of the record loop in Process_v1. */
  method DecodeV1(h: Header, first: nat, last: nat) returns (start: nat, end: nat)
    requires IsHeader(h) && first < U32 && last < U32
    ensures start == W64(StartOf(EndV1(ExportMs(h), h.sysUptime, last), first, last))
    ensures end == W64(EndV1(ExportMs(h), h.sysUptime, last))
  {
    hide W64, EndV1, StartOf;
    EndCases(ExportMs(h), h.sysUptime, last);
    StartCases(EndV1(ExportMs(h), h.sysUptime, last), first, last);
    ghost var boot := ExportMs(h) - h.sysUptime;
    var bootTime := W64(h.unixSecs * 1000 + h.unixNsecs / 1_000_000 - h.sysUptime);
    ghost var s, e := boot + first - (if first > last then U32 else 0), boot + last;
    if first > last {
      start := W64(bootTime - 0x1_0000_0000 + first);
    } else {
      start := W64(bootTime + first);
    }
    end := W64(last + bootTime);
    Wrap(boot, s - boot);
    Wrap(boot, e - boot);
    assert start == W64(s) && end == W64(e);
    if last > h.sysUptime {
      start := W64(start - 0x1_0000_0000);
      end := W64(end - 0x1_0000_0000);
      Wrap(s, -U32);
      Wrap(e, -U32);
      s, e := s - U32, e - U32;
    }
    assert e == EndV1(ExportMs(h), h.sysUptime, last);
    assert s == StartOf(e, first, last);
  }

  /** The time section of the record loop in Process_v5_v7. */
  method DecodeV5(h: Header, first: nat, last: nat) returns (start: nat, end: nat)
    requires IsHeader(h) && first < U32 && last < U32
    ensures start == W64(StartOf(EndV5(ExportMs(h), h.sysUptime, last), first, last))
    ensures end == W64(EndV5(ExportMs(h), h.sysUptime, last))
  {
    hide W64, EndV5, StartOf;
    EndCases(ExportMs(h), h.sysUptime, last);
    StartCases(EndV5(ExportMs(h), h.sysUptime, last), first, last);
    ghost var boot := ExportMs(h) - h.sysUptime;
    var bootTime := W64(h.unixSecs * 1000 + h.unixNsecs / 1_000_000 - h.sysUptime);
    ghost var s, e := boot + first - (if first > last then U32 else 0), boot + last;
    if first > last {
      start := W64(bootTime - 0x1_0000_0000 + first);
    } else {
      start := W64(bootTime + first);
    }
    end := W64(last + bootTime);
    Wrap(boot, s - boot);
    Wrap(boot, e - boot);
    assert start == W64(s) && end == W64(e);
    if last > h.sysUptime && last - h.sysUptime > 100000 {
      start := W64(start - 0x1_0000_0000);
      end := W64(end - 0x1_0000_0000);
      Wrap(s, -U32);
      Wrap(e, -U32);
      s, e := s - U32, e - U32;
    }
    assert e == EndV5(ExportMs(h), h.sysUptime, last);
    assert s == StartOf(e, first, last);
  }

  // ---------------------------------------------------------------- what it computes

  /** v1: the latest time up to the export whose uptime reads `last`. */
  function EndV1(sent: int, uptime: nat, last: nat): (e: int)
    requires uptime < U32 && last < U32
    ensures sent - U32 < e <= sent
    ensures (e - sent + uptime) % U32 == last
  {
    sent - (uptime - last) % U32
  }

  /** v5: the same, except that an uptime slightly past the header's is taken as lying after the export. */
  function EndV5(sent: int, uptime: nat, last: nat): (e: int)
    requires uptime < U32 && last < U32
    ensures sent - U32 < e <= sent + SLACK
    ensures (e - sent + uptime) % U32 == last
  {
    if uptime < last <= uptime + SLACK then sent + (last - uptime) else sent - (uptime - last) % U32
  }

  /** Both: the start is the latest time up to the end whose uptime reads `first`. */
  function StartOf(end: int, first: nat, last: nat): (s: int)
    requires first < U32 && last < U32
    ensures end - U32 < s <= end
    ensures (s - end + last) % U32 == first
  {
    end - (last - first) % U32
  }

  /** The two decoders by cases, as the branches of the source distinguish them. */
  lemma EndCases(sent: int, uptime: nat, last: nat)
    requires uptime < U32 && last < U32
    ensures EndV1(sent, uptime, last) == sent + last - uptime - (if last > uptime then U32 else 0)
    ensures EndV5(sent, uptime, last) == sent + last - uptime - (if last > uptime && last - uptime > SLACK then U32 else 0)
  {
  }

  lemma StartCases(end: int, first: nat, last: nat)
    requires first < U32 && last < U32
    ensures StartOf(end, first, last) == end + first - last - (if first > last then U32 else 0)
  {
  }

  // ---------------------------------------------------------------- when it is right

  /** The uptime a router that booted at `boot` shows at time `t`, after any number of wraps. */
  function Uptime(boot: int, t: int): (u: nat)
    ensures u < U32
  {
    (t - boot) % U32
  }

  lemma UptimeDiff(boot: int, t: int, u: int)
    ensures (Uptime(boot, t) - Uptime(boot, u)) % U32 == (t - u) % U32
  {
    ModDiff(t - boot, u - boot);
    assert (t - boot) - (u - boot) == t - u;
  }

  /** The start is recovered exactly when the flow is shorter than one wrap. */
  lemma StartExact(boot: int, start: int, end: int)
    requires start <= end
    ensures StartOf(end, Uptime(boot, start), Uptime(boot, end)) == start <==> end - start < U32
  {
    UptimeDiff(boot, end, start);
  }

  /** v1 recovers the end exactly when it lies less than one wrap before the export. */
  lemma EndV1Exact(boot: int, end: int, sent: int)
    requires end <= sent
    ensures EndV1(sent, Uptime(boot, sent), Uptime(boot, end)) == end <==> sent - end < U32
  {
    UptimeDiff(boot, sent, end);
  }

  /**
   When v5 recovers an end `d` milliseconds before the export (after it, if d is negative):
   no wrap may lie between the two, or the distance must keep clear of the slack; and after
   the export only the slack itself, without a wrap, is understood.
   */
  predicate V5Reaches(d: int, uptime: nat) {
    if d >= 0 then d < U32 && (d <= uptime || d < U32 - SLACK)
    else -SLACK <= d && uptime - d < U32
  }

  lemma EndV5Exact(boot: int, end: int, sent: int)
    ensures var up := Uptime(boot, sent);
            EndV5(sent, up, Uptime(boot, end)) == end <==> V5Reaches(sent - end, up)
  {
    UptimeDiff(boot, sent, end);
    var up, last, d := Uptime(boot, sent), Uptime(boot, end), sent - end;
    assert (up - last) % U32 == d % U32;
    if 0 <= d < U32 {
      assert last == (if d <= up then up - d else up - d + U32);
    } else if -SLACK <= d < 0 {
      assert last == (if up - d < U32 then up - d else up - d - U32);
    }
  }

  /** Distinct times closer than 2^64 stay distinct in 64 bits. */
  lemma Mod64(a: int, b: int)
    requires 0 <= b < U64 && -U64 < a - b < U64
    ensures W64(a) == b <==> a == b || a == b + U64 || a == b - U64
    ensures -U32 - SLACK - U32 < a < U64 && b < U64 - U32 - U32 - SLACK ==> (W64(a) == b <==> a == b)
  {
  }

  /**
   v1, end to end: for a flow start <= end <= export of a router that booted at any time, the
   64-bit results are the true times if and only if the flow lasts less than 2^32 ms and
   ended less than 2^32 ms before the export.
   */
  lemma V1Exact(boot: int, start: int, end: int, h: Header)
    requires IsHeader(h) && h.sysUptime == Uptime(boot, ExportMs(h)) && 0 <= start <= end <= ExportMs(h)
    ensures var e := EndV1(ExportMs(h), h.sysUptime, Uptime(boot, end));
            var s := StartOf(e, Uptime(boot, start), Uptime(boot, end));
            (W64(s) == start && W64(e) == end) <==> (end - start < U32 && ExportMs(h) - end < U32)
  {
    var e := EndV1(ExportMs(h), h.sysUptime, Uptime(boot, end));
    EndV1Exact(boot, end, ExportMs(h));
    StartExact(boot, start, end);
    Mod64(e, end);
    Mod64(StartOf(e, Uptime(boot, start), Uptime(boot, end)), start);
  }

  /** v5, end to end; the end may also lie after the export. */
  lemma V5Exact(boot: int, start: int, end: int, h: Header)
    requires IsHeader(h) && h.sysUptime == Uptime(boot, ExportMs(h)) && 0 <= start <= end <= ExportMs(h) + U32
    ensures var e := EndV5(ExportMs(h), h.sysUptime, Uptime(boot, end));
            var s := StartOf(e, Uptime(boot, start), Uptime(boot, end));
            (W64(s) == start && W64(e) == end)
            <==> (end - start < U32 && V5Reaches(ExportMs(h) - end, h.sysUptime))
  {
    var e := EndV5(ExportMs(h), h.sysUptime, Uptime(boot, end));
    EndV5Exact(boot, end, ExportMs(h));
    StartExact(boot, start, end);
    Mod64(e, end);
    Mod64(StartOf(e, Uptime(boot, start), Uptime(boot, end)), start);
  }

  /** The two windows in which v5 is right whatever the uptime, resp. as long as no wrap intervenes. */
  lemma V5Windows(d: int, uptime: nat)
    requires uptime < U32
    ensures 0 <= d < U32 - SLACK ==> V5Reaches(d, uptime)
    ensures -SLACK <= d < 0 && uptime - d < U32 ==> V5Reaches(d, uptime)
    ensures U32 - SLACK <= d < U32 ==> (V5Reaches(d, uptime) <==> d <= uptime)
    ensures d < -SLACK || d >= U32 ==> !V5Reaches(d, uptime)
  {
  }
}
