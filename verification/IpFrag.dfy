/**
 IPv4 reassembly with a hole list (section 3.2 of RFC 791; the hole descriptor algorithm is
 section 3 of RFC 815), as `IPFrag_tree_Update` does it.
 */
module IpFrag {
  import opened Bytes
  import opened Wrappers

  /** IP_MAXPACKET: buffer size of a datagram, and the end of a hole whose end is unknown. */
  const MAXPACKET: nat := 65535

  /** Missing bytes first..last, both included. */
  datatype Hole = Hole(first: nat, last: nat)

  /** A fragment as the caller passes it on: offset, payload, and the more-fragments flag. */
  datatype Fragment = Fragment(first: nat, payload: seq<byte>, more: bool)
  {
    /**
     What the function needs: a payload that lies inside the buffer, and is not empty at offset 0. It does not check
     this itself, see `NewNodeOverruns` and `EmptyFirstOverruns`.
     */
    predicate Fits() {
      0 < first + |payload| <= MAXPACKET
    }

    function Last(): nat
      requires Fits()
    {
      first + |payload| - 1
    }

    /** The end of the datagram, if this is its last fragment; 0 otherwise. */
    function Max(): nat
      requires Fits()
    {
      if more then 0 else Last()
    }
  }

  // ---------------------------------------------------------------- the walk over the holes

  /** A hole of unknown end is cut at the end that the last fragment tells. */
  function Truncate(h: Hole, max: nat): Hole {
    if max > 0 && h.last == MAXPACKET && max > h.first then Hole(h.first, max) else h
  }

  /** The fragment first..last is taken out of hole `i`, as the branches of the source do it. */
  function Cut(hs: seq<Hole>, i: nat, first: nat, last: nat): seq<Hole>
    requires i < |hs|
  {
    var h := hs[i];
    if first == h.first then
      if last == h.last then (if i > 0 then hs[..i] + hs[i + 1..] else [])
      else hs[i := Hole(last + 1, h.last)]
    else
      var hs' := hs[i := Hole(h.first, (first - 1) % U32)];
      if last < h.last then [Hole(last + 1, h.last)] + hs' else hs'
  }

  /** Result of the walk: was a hole found, and the hole list afterwards. */
  datatype Walked = Walked(found: bool, holes: seq<Hole>)

  function Walk(hs: seq<Hole>, i: nat, f: Fragment): Walked
    requires i <= |hs| && f.Fits()
    decreases |hs| - i
  {
    if i == |hs| then Walked(false, hs)
    else
      var h := Truncate(hs[i], f.Max());
      var hs' := hs[i := h];
      if f.first > h.last || f.Last() < h.first then Walk(hs', i + 1, f)
      else Walked(true, Cut(hs', i, f.first, f.Last()))
  }

  // ---------------------------------------------------------------- fragments that do not fit

  /** The offset of a fragment, from the offset field of its header. */
  function FirstOf(off: nat): nat {
    off % 0x2000 * 8
  }

  /** Its last byte, in 16 bits. */
  function LastOf(off: nat, length: nat): nat {
    (FirstOf(off) + length - 1) % U16
  }

  /** The test against the largest packet. */
  predicate Refused(off: nat, length: nat) {
    MAXPACKET < LastOf(off, length)
  }

  /** The fragment meets the hole, so it is copied into the buffer. */
  predicate Copied(h: Hole, off: nat, length: nat, more: bool) {
    var t := Truncate(h, if more then 0 else LastOf(off, length));
    !(FirstOf(off) > t.last) && !(LastOf(off, length) < t.first)
  }

  /**
   The test refuses nothing. Of the fragments that reach behind the buffer, a new node copies those that say that more
   follow, and of the final ones those that reach at most two bytes behind it.
   */
  lemma NewNodeOverruns(off: nat, length: nat, more: bool)
    requires length < U16
    ensures !Refused(off, length)
    ensures Copied(Hole(0, MAXPACKET), off, length, more) && FirstOf(off) + length > MAXPACKET
            <==> FirstOf(off) + length > MAXPACKET && (more || FirstOf(off) + length <= MAXPACKET + 2)
  {
    var sum := FirstOf(off) + length;
    assert FirstOf(off) < U16;
    assert LastOf(off, length) == if sum == 0 then MAXPACKET else if sum <= U16 then sum - 1 else sum - 1 - U16;
  }

  /** An empty fragment at offset 0 closes the hole of a new node, as if the datagram had one byte more than the buffer. */
  lemma EmptyFirstOverruns(more: bool)
    ensures Copied(Hole(0, MAXPACKET), 0, 0, more) && Cut([Hole(0, MAXPACKET)], 0, FirstOf(0), LastOf(0, 0)) == []
    ensures LastOf(0, 0) + 1 > MAXPACKET
  {}

  // ---------------------------------------------------------------- one datagram under reassembly

  /** What is kept of a datagram under reassembly. */
  datatype Buffer = Buffer(holes: seq<Hole>, data: seq<byte>, size: nat)

  /** The buffer of a new node. */
  function Fresh(): Buffer {
    Buffer([Hole(0, MAXPACKET)], seq(MAXPACKET, _ => 0), 0)
  }

  /** The buffer after one fragment; a fragment that meets no hole changes no byte. */
  function Receive(b: Buffer, f: Fragment): Buffer
    requires |b.data| == MAXPACKET && f.Fits()
  {
    var w := Walk(b.holes, 0, f);
    if w.found
    then Buffer(w.holes, Store(b.data, f.first, f.payload), if f.Last() > b.size then f.Last() else b.size)
    else b.(holes := w.holes)
  }

  /** What the caller gets: the datagram when no hole is left, and else nothing. */
  function Delivered(b: Buffer): Option<seq<byte>>
    requires b.size < |b.data|
  {
    if b.holes == [] then Some(b.data[..b.size + 1]) else None
  }

  /** One datagram under reassembly. */
  class Node {
    var holes: seq<Hole>
    var data: array<byte>
    var dataSize: nat

    ghost predicate Valid()
      reads this
    {
      data.Length == MAXPACKET
    }

    ghost function State(): (b: Buffer)
      reads this, data
      ensures |b.data| == data.Length && b.size == dataSize
    {
      Buffer(holes, data[..], dataSize)
    }

    /** New_node */
    constructor ()
      ensures Valid() && fresh(data) && dataSize == 0 && State() == Fresh()
    {
      data := new byte[MAXPACKET](_ => 0);
      holes := [Hole(0, MAXPACKET)];
      dataSize := 0;
    }

    method Copy(at: nat, bytes: seq<byte>)
      requires Valid() && at + |bytes| <= MAXPACKET
      modifies data
      ensures data[..] == Store(old(data[..]), at, bytes)
    {
      forall k | 0 <= k < |bytes| {
        data[at + k] := bytes[k];
      }
      assert data[..at] == old(data[..at]);
      assert data[at..at + |bytes|] == bytes;
      assert data[at + |bytes|..] == old(data[at + |bytes|..]);
    }

    /** The fragment's bytes go into the buffer, and its range out of hole `i`. */
    method Take(i: nat, f: Fragment)
      requires Valid() && f.Fits() && i < |holes|
      modifies this, data
      ensures Valid() && data == old(data) && holes == Cut(old(holes), i, f.first, f.Last())
      ensures dataSize == if f.Last() > old(dataSize) then f.Last() else old(dataSize)
      ensures data[..] == Store(old(data[..]), f.first, f.payload)
    {
      var hole := holes[i];
      var last := f.first + |f.payload| - 1;
      if last > dataSize {
        dataSize := last;
      }
      if f.first == hole.first {
        if last == hole.last {
          if i > 0 {
            holes := holes[..i] + holes[i + 1..];
          } else {
            holes := [];
          }
        } else {
          holes := holes[i := Hole(last + 1, hole.last)];
        }
      } else {
        holes := holes[i := Hole(hole.first, (f.first - 1) % U32)];
        if last < hole.last {
          holes := [Hole(last + 1, hole.last)] + holes;
        }
      }
      Copy(f.first, f.payload);
    }

    /** The part of IPFrag_tree_Update that works on the node; `complete` says that no hole is left. */
    method Update(f: Fragment) returns (complete: bool, length: nat)
      requires Valid() && f.Fits()
      modifies this, data
      ensures Valid() && data == old(data)
      ensures var b := Receive(old(State()), f);
              && complete == (b.holes == []) && length == (if complete then b.size + 1 else b.size)
              && State() == b.(size := length)
    {
      var last := f.first + |f.payload| - 1;
      var max := if f.more then 0 else last;
      var i := 0;
      while i < |holes|
        invariant i <= |holes| && data == old(data) && data[..] == old(data[..]) && dataSize == old(dataSize)
        invariant Walk(holes, i, f) == Walk(old(holes), 0, f)
        decreases |holes| - i
      {
        var hole := holes[i];
        if max != 0 && hole.last == MAXPACKET && max > hole.first {
          hole := Hole(hole.first, max);
        }
        holes := holes[i := hole];
        if !(f.first > hole.last) && !(last < hole.first) {
          Take(i, f);
          break;
        }
        i := i + 1;
      }
      complete := holes == [];
      if complete {
        dataSize := dataSize + 1;
      }
      length := dataSize;
    }
  }

  // ---------------------------------------------------------------- a datagram cut into fragments

  /** A datagram is given by its pieces in order: none empty, and together not longer than the buffer. */
  ghost predicate Datagram(ps: seq<seq<byte>>) {
    && 0 < |ps| && Start(ps, |ps|) <= MAXPACKET
    && forall j :: 0 <= j < |ps| ==> 0 < |ps[j]|
  }

  /** Where piece `j` starts; `Start(ps, |ps|)` is the length of the datagram. */
  function Start(ps: seq<seq<byte>>, j: nat): nat
    requires j <= |ps|
  {
    if j == 0 then 0 else Start(ps, j - 1) + |ps[j - 1]|
  }

  /** The bytes of the first `j` pieces. */
  function Joined(ps: seq<seq<byte>>, j: nat): (r: seq<byte>)
    requires j <= |ps|
    ensures |r| == Start(ps, j)
  {
    if j == 0 then [] else Joined(ps, j - 1) + ps[j - 1]
  }

  /** Piece `j` as a fragment; all but the last say that more follow. */
  function Frag(ps: seq<seq<byte>>, j: nat): Fragment
    requires j < |ps|
  {
    Fragment(Start(ps, j), ps[j], j + 1 < |ps|)
  }

  lemma {:induction false} StartGrows(ps: seq<seq<byte>>, a: nat, b: nat)
    requires Datagram(ps) && a <= b <= |ps|
    ensures Start(ps, a) + (b - a) <= Start(ps, b)
    decreases b - a
  {
    if a < b {
      StartGrows(ps, a, b - 1);
      assert 0 < |ps[b - 1]|;
    }
  }

  lemma FragFits(ps: seq<seq<byte>>, j: nat)
    requires Datagram(ps) && j < |ps|
    ensures Frag(ps, j).Fits()
    ensures Frag(ps, j).first == Start(ps, j) && Frag(ps, j).Last() == Start(ps, j + 1) - 1
    ensures Start(ps, j) < Start(ps, j + 1) <= Start(ps, |ps|) <= MAXPACKET
  {
    StartGrows(ps, j, j + 1);
    StartGrows(ps, j + 1, |ps|);
    assert Start(ps, j + 1) == Start(ps, j) + |ps[j]|;
  }

  // ---------------------------------------------------------------- holes as runs of missing pieces

  /** The pieces from..to-1 are missing. */
  datatype Gap = Gap(from: nat, to: nat)
  {
    predicate Has(j: nat) {
      from <= j < to
    }
  }

  /** The hole that stands for a gap; the end of the datagram is unknown while the last piece is missing. */
  function HoleOf(ps: seq<seq<byte>>, g: Gap): Hole
    requires Datagram(ps) && g.from < g.to <= |ps|
  {
    StartGrows(ps, g.from, g.to);
    Hole(Start(ps, g.from), if g.to == |ps| then MAXPACKET else Start(ps, g.to) - 1)
  }

  /** The gaps are inside the datagram. */
  ghost predicate Inside(ps: seq<seq<byte>>, gs: seq<Gap>) {
    forall i :: 0 <= i < |gs| ==> gs[i].from < gs[i].to <= |ps|
  }

  ghost function Holes(ps: seq<seq<byte>>, gs: seq<Gap>): (hs: seq<Hole>)
    requires Datagram(ps) && Inside(ps, gs)
    ensures |hs| == |gs|
  {
    seq(|gs|, i requires 0 <= i < |gs| => HoleOf(ps, gs[i]))
  }

  ghost predicate Covers(gs: seq<Gap>, j: nat) {
    exists i :: 0 <= i < |gs| && gs[i].Has(j)
  }

  /** The gaps have no piece in common, and together they are the pieces that were not received. */
  ghost predicate Gaps(ps: seq<seq<byte>>, got: set<nat>, gs: seq<Gap>) {
    && Inside(ps, gs)
    && (forall i, k :: 0 <= i < k < |gs| ==> gs[i].to <= gs[k].from || gs[k].to <= gs[i].from)
    && (forall i, j :: 0 <= i < |gs| && gs[i].Has(j) ==> j !in got)
    && (forall j :: 0 <= j < |ps| && j !in got ==> Covers(gs, j))
  }

  /** Cut, on gaps. */
  ghost function CutGap(gs: seq<Gap>, i: nat, j: nat): seq<Gap>
    requires i < |gs|
  {
    var g := gs[i];
    if j == g.from then
      if j + 1 == g.to then gs[..i] + gs[i + 1..] else gs[i := Gap(j + 1, g.to)]
    else
      var gs' := gs[i := Gap(g.from, j)];
      if j + 1 < g.to then [Gap(j + 1, g.to)] + gs' else gs'
  }

  /** A fragment passes a hole that it does not belong to, and leaves the hole as it is. */
  lemma PassesHole(ps: seq<seq<byte>>, g: Gap, j: nat)
    requires Datagram(ps) && g.from < g.to <= |ps| && j < |ps| && !g.Has(j)
    ensures Frag(ps, j).Fits()
    ensures var f, h := Frag(ps, j), HoleOf(ps, g);
            Truncate(h, f.Max()) == h && (f.first > h.last || f.Last() < h.first)
  {
    FragFits(ps, j);
    if j < g.from {
      StartGrows(ps, j + 1, g.from);
    } else {
      StartGrows(ps, g.to, j);
    }
    if g.to < |ps| {
      StartGrows(ps, g.to, |ps|);
    }
  }

  lemma {:induction false} WalkPasses(ps: seq<seq<byte>>, gs: seq<Gap>, i: nat, m: nat, j: nat)
    requires Datagram(ps) && Inside(ps, gs) && j < |ps| && i <= m <= |gs|
    requires forall k :: i <= k < m ==> !gs[k].Has(j)
    requires Frag(ps, j).Fits()
    ensures Walk(Holes(ps, gs), i, Frag(ps, j)) == Walk(Holes(ps, gs), m, Frag(ps, j))
    decreases m - i
  {
    if i < m {
      PassesHole(ps, gs[i], j);
      var hs := Holes(ps, gs);
      assert hs[i := hs[i]] == hs;
      WalkPasses(ps, gs, i + 1, m, j);
    }
  }

  /** The last piece is a single byte and the only piece of its gap. */
  ghost predicate LoneByte(ps: seq<seq<byte>>, g: Gap, j: nat)
    requires j < |ps|
  {
    j + 1 == |ps| && |ps[j]| == 1 && g.from == j
  }

  /** The end of a gap's hole at the moment it is met by fragment `j`: set, unless `j` is a lone last byte. */
  lemma EndIsSet(ps: seq<seq<byte>>, g: Gap, j: nat)
    requires Datagram(ps) && g.from < g.to <= |ps| && j < |ps| && g.Has(j) && Frag(ps, j).Fits()
    ensures var h := Truncate(HoleOf(ps, g), Frag(ps, j).Max());
            if j + 1 == g.to && !LoneByte(ps, g, j) then h == Hole(Start(ps, g.from), Start(ps, j + 1) - 1)
            else h == HoleOf(ps, g)
  {
    FragFits(ps, j);
    StartGrows(ps, g.from, j);
    StartGrows(ps, g.to, |ps|);
  }

  /** How far a gap's hole reaches, by the position of piece `j` in the gap. */
  lemma HoleReach(ps: seq<seq<byte>>, g: Gap, j: nat)
    requires Datagram(ps) && g.from < g.to <= |ps| && j < |ps| && g.Has(j)
    ensures var h := HoleOf(ps, g);
            && h.first == Start(ps, g.from)
            && h.first <= Start(ps, j) < Start(ps, j + 1) <= h.last + 1 && (h.first == Start(ps, j) <==> j == g.from)
            && (j + 1 < g.to ==> Start(ps, j + 1) <= h.last)
            && (j + 1 == |ps| ==> Start(ps, j + 1) <= h.last)
  {
    FragFits(ps, j);
    StartGrows(ps, g.from, j);
    StartGrows(ps, j + 1, g.to);
    StartGrows(ps, g.to, |ps|);
  }

  /** The fragment meets the hole of its gap, and touches an end of the hole just when it touches that of the gap. */
  lemma MeetsHole(ps: seq<seq<byte>>, g: Gap, j: nat)
    requires Datagram(ps) && g.from < g.to <= |ps| && j < |ps| && g.Has(j)
    ensures Frag(ps, j).Fits()
    ensures var f, h := Frag(ps, j), Truncate(HoleOf(ps, g), Frag(ps, j).Max());
            && f.first <= h.last && f.Last() >= h.first
            && (f.first == h.first <==> j == g.from)
            && (f.Last() == h.last <==> j + 1 == g.to && !LoneByte(ps, g, j))
            && f.Last() <= h.last
  {
    hide Datagram, HoleOf, Start, Truncate, Frag, Fragment.Max, Fragment.Fits, Fragment.Last;
    FragFits(ps, j);
    EndIsSet(ps, g, j);
    HoleReach(ps, g, j);
    if j + 1 == g.to && !LoneByte(ps, g, j) {
    } else if j + 1 == g.to {
    } else {
    }
  }

  /** The walk ends at the first hole whose gap has the piece, and cuts it. */
  lemma WalkHits(ps: seq<seq<byte>>, gs: seq<Gap>, i: nat, j: nat)
    requires Datagram(ps) && Inside(ps, gs) && j < |ps| && i < |gs|
    requires gs[i].Has(j) && forall k :: 0 <= k < i ==> !gs[k].Has(j)
    ensures Frag(ps, j).Fits()
    ensures var f := Frag(ps, j);
            var hs := Holes(ps, gs)[i := Truncate(HoleOf(ps, gs[i]), f.Max())];
            Walk(Holes(ps, gs), 0, f) == Walked(true, Cut(hs, i, f.first, f.Last()))
  {
    MeetsHole(ps, gs[i], j);
    hide Datagram, HoleOf, Start, Truncate, Frag, Fragment.Max, Fragment.Fits, Fragment.Last, Cut;
    WalkPasses(ps, gs, 0, i, j);
  }

  /** The first hole is closed while there are others. */
  predicate ClosesHead(gs: seq<Gap>, j: nat) {
    1 < |gs| && gs[0] == Gap(j, j + 1)
  }

  lemma CutGapInside(ps: seq<seq<byte>>, gs: seq<Gap>, i: nat, j: nat)
    requires Inside(ps, gs) && i < |gs| && gs[i].Has(j)
    ensures Inside(ps, CutGap(gs, i, j))
  {
    var cs := CutGap(gs, i, j);
    var g := gs[i];
    var shift := if j != g.from && j + 1 < g.to then 1 else 0;
    forall k | 0 <= k < |cs| ensures cs[k].from < cs[k].to <= |ps| {
      if shift == 1 && k == 0 {
      } else if j == g.from && j + 1 == g.to && k >= i {
        assert cs[k] == gs[k + 1];
      } else if k - shift != i {
        assert cs[k] == gs[k - shift];
      }
    }
  }

  /** The hole of what is left of a gap above piece `j`. */
  lemma HoleAbove(ps: seq<seq<byte>>, g: Gap, j: nat)
    requires Datagram(ps) && g.from < g.to <= |ps| && g.Has(j) && j + 1 < g.to
    ensures HoleOf(ps, Gap(j + 1, g.to)) == Hole(Start(ps, j + 1), HoleOf(ps, g).last)
  {}

  /** The hole of what is left of a gap below piece `j`. */
  lemma HoleBelow(ps: seq<seq<byte>>, g: Gap, j: nat)
    requires Datagram(ps) && g.from < g.to <= |ps| && g.Has(j) && g.from < j
    ensures HoleOf(ps, Gap(g.from, j)) == Hole(HoleOf(ps, g).first, (Start(ps, j) - 1) % U32)
  {
    FragFits(ps, j);
    StartGrows(ps, 0, j);
  }

  lemma HolesRemove(ps: seq<seq<byte>>, gs: seq<Gap>, i: nat, h: Hole)
    requires Datagram(ps) && Inside(ps, gs) && i < |gs|
    ensures Inside(ps, gs[..i] + gs[i + 1..])
    ensures var hs := Holes(ps, gs)[i := h]; hs[..i] + hs[i + 1..] == Holes(ps, gs[..i] + gs[i + 1..])
  {
    hide Datagram, HoleOf;
  }

  lemma HolesUpdate(ps: seq<seq<byte>>, gs: seq<Gap>, i: nat, h: Hole, g: Gap)
    requires Datagram(ps) && Inside(ps, gs) && i < |gs| && g.from < g.to <= |ps|
    ensures Inside(ps, gs[i := g])
    ensures Holes(ps, gs)[i := h][i := HoleOf(ps, g)] == Holes(ps, gs[i := g])
  {
    hide Datagram, HoleOf;
  }

  lemma HolesPrepend(ps: seq<seq<byte>>, gs: seq<Gap>, g: Gap)
    requires Datagram(ps) && Inside(ps, gs) && g.from < g.to <= |ps|
    ensures Inside(ps, [g] + gs) && [HoleOf(ps, g)] + Holes(ps, gs) == Holes(ps, [g] + gs)
  {
    hide Datagram, HoleOf;
  }

  /** Cutting the hole of a gap is cutting the gap, as far as the head of the list is not closed. */
  lemma CutIsCutGap(ps: seq<seq<byte>>, gs: seq<Gap>, i: nat, j: nat)
    requires Datagram(ps) && Inside(ps, gs) && j < |ps| && i < |gs| && gs[i].Has(j) && !LoneByte(ps, gs[i], j)
    requires !(i == 0 && ClosesHead(gs, j)) && Frag(ps, j).Fits()
    ensures Inside(ps, CutGap(gs, i, j))
    ensures var f := Frag(ps, j);
            var hs := Holes(ps, gs)[i := Truncate(HoleOf(ps, gs[i]), f.Max())];
            Cut(hs, i, f.first, f.Last()) == Holes(ps, CutGap(gs, i, j))
  {
    var f, g := Frag(ps, j), gs[i];
    var h := Truncate(HoleOf(ps, g), f.Max());
    CutGapInside(ps, gs, i, j);
    MeetsHole(ps, g, j);
    FragFits(ps, j);
    EndIsSet(ps, g, j);
    hide Datagram, Inside, Start, Truncate, Frag, Fragment.Max, Fragment.Fits, Fragment.Last, HoleOf, Holes;
    if j == g.from && j + 1 == g.to {
      HolesRemove(ps, gs, i, h);
      assert i == 0 ==> gs[..i] + gs[i + 1..] == [];
    } else if j == g.from {
      HoleAbove(ps, g, j);
      HolesUpdate(ps, gs, i, h, Gap(j + 1, g.to));
    } else {
      HoleBelow(ps, g, j);
      HolesUpdate(ps, gs, i, h, Gap(g.from, j));
      if j + 1 < g.to {
        HoleAbove(ps, g, j);
        HolesPrepend(ps, gs[i := Gap(g.from, j)], Gap(j + 1, g.to));
      } else {
        HoleReach(ps, g, j);
      }
    }
  }

  // ---------------------------------------------------------------- what every fragment keeps

  /** What is left of gap `i` and of the others, piece by piece. */
  lemma CutGapHas(gs: seq<Gap>, i: nat, j: nat, m: nat)
    requires i < |gs| && gs[i].Has(j)
    requires forall k, l :: 0 <= k < l < |gs| ==> gs[k].to <= gs[l].from || gs[l].to <= gs[k].from
    ensures Covers(CutGap(gs, i, j), m) <==> m != j && Covers(gs, m)
  {
    var cs, g := CutGap(gs, i, j), gs[i];
    var shift := if j != g.from && j + 1 < g.to then 1 else 0;
    var gone := j == g.from && j + 1 == g.to;
    if k :| 0 <= k < |cs| && cs[k].Has(m) {
      if shift == 1 && k == 0 {
        assert gs[i].Has(m);
      } else if gone && k >= i {
        assert gs[k + 1].Has(m);
      } else {
        assert gs[k - shift].Has(m);
      }
    }
    if m != j {
      if k :| 0 <= k < |gs| && gs[k].Has(m) {
        if k == i && m > j && shift == 1 {
          assert cs[0].Has(m);
        } else if gone && k > i {
          assert cs[k - 1].Has(m);
        } else {
          assert cs[k + shift].Has(m);
        }
      }
    }
  }

  lemma CutGapApart(gs: seq<Gap>, i: nat, j: nat, k: nat, l: nat)
    requires i < |gs| && gs[i].Has(j) && k < l < |CutGap(gs, i, j)|
    requires forall k, l :: 0 <= k < l < |gs| ==> gs[k].to <= gs[l].from || gs[l].to <= gs[k].from
    ensures var cs := CutGap(gs, i, j); cs[k].to <= cs[l].from || cs[l].to <= cs[k].from
  {
    var cs, g := CutGap(gs, i, j), gs[i];
    var shift := if j != g.from && j + 1 < g.to then 1 else 0;
    if j == g.from && j + 1 == g.to {
      assert cs[k] == gs[if k < i then k else k + 1];
      assert cs[l] == gs[if l < i then l else l + 1];
    } else if shift == 1 && k == 0 {
      assert l - 1 != i ==> cs[l] == gs[l - 1];
    } else {
      assert k - shift != i ==> cs[k] == gs[k - shift];
      assert l - shift != i ==> cs[l] == gs[l - shift];
    }
  }

  /** Taking a missing piece out of its gap leaves the gaps of the pieces that are still missing. */
  lemma CutGapKeepsGaps(ps: seq<seq<byte>>, got: set<nat>, gs: seq<Gap>, i: nat, j: nat)
    requires Gaps(ps, got, gs) && i < |gs| && gs[i].Has(j)
    ensures Gaps(ps, got + {j}, CutGap(gs, i, j))
  {
    var cs := CutGap(gs, i, j);
    CutGapInside(ps, gs, i, j);
    forall k, l | 0 <= k < l < |cs| ensures cs[k].to <= cs[l].from || cs[l].to <= cs[k].from {
      CutGapApart(gs, i, j, k, l);
    }
    forall k, m | 0 <= k < |cs| && cs[k].Has(m) ensures m !in got + {j} {
      CutGapHas(gs, i, j, m);
    }
    forall m | 0 <= m < |ps| && m !in got + {j} ensures Covers(cs, m) {
      CutGapHas(gs, i, j, m);
    }
  }

  /** The pieces that were received are in the buffer. */
  ghost predicate Stored(ps: seq<seq<byte>>, got: set<nat>, data: seq<byte>) {
    && |data| == MAXPACKET
    && forall j :: 0 <= j < |ps| && j in got ==> Has(data, Start(ps, j), ps[j])
  }

  /**
   The buffer is right for the received pieces: its holes are the gaps of the others, the bytes are in place,
   and the size is known from the last piece on.
   */
  ghost predicate Tracks(ps: seq<seq<byte>>, got: set<nat>, gs: seq<Gap>, b: Buffer) {
    && Datagram(ps)
    && Gaps(ps, got, gs) && b.holes == Holes(ps, gs)
    && Stored(ps, got, b.data)
    && b.size < Start(ps, |ps|) && (|ps| - 1 in got ==> b.size == Start(ps, |ps|) - 1)
  }

  ghost predicate Kept(ps: seq<seq<byte>>, got: set<nat>, b: Buffer) {
    exists gs :: Tracks(ps, got, gs, b)
  }

  lemma FreshKept(ps: seq<seq<byte>>)
    requires Datagram(ps)
    ensures Tracks(ps, {}, [Gap(0, |ps|)], Fresh())
  {
    var gs := [Gap(0, |ps|)];
    StartGrows(ps, 0, |ps|);
    assert Fresh().holes == Holes(ps, gs);
    assert Inside(ps, gs);
    forall j: nat | j < |ps| ensures Covers(gs, j) {
      assert gs[0].Has(j);
    }
    assert Gaps(ps, {}, gs);
    assert Stored(ps, {}, Fresh().data);
  }

  /** A fragment that came before changes nothing. */
  lemma DuplicateIgnored(ps: seq<seq<byte>>, got: set<nat>, b: Buffer, j: nat)
    requires Kept(ps, got, b) && j < |ps| && j in got
    ensures Frag(ps, j).Fits() && Receive(b, Frag(ps, j)) == b
  {
    FragFits(ps, j);
    var gs: seq<Gap> :| Tracks(ps, got, gs, b);
    WalkPasses(ps, gs, 0, |gs|, j);
  }

  // ---------------------------------------------------------------- one fragment that did not come before

  lemma OtherPieceStays(ps: seq<seq<byte>>, data: seq<byte>, j: nat, k: nat)
    requires Datagram(ps) && j < |ps| && k < |ps| && j != k && Frag(ps, j).Fits() && |data| == MAXPACKET
    requires Has(data, Start(ps, k), ps[k])
    ensures Has(Store(data, Start(ps, j), ps[j]), Start(ps, k), ps[k])
  {
    hide Datagram, Store, Has;
    FragFits(ps, j);
    FragFits(ps, k);
    if j < k { StartGrows(ps, j + 1, k); } else { StartGrows(ps, k + 1, j); }
    StoreKeeps(data, Start(ps, j), ps[j], Start(ps, k), ps[k]);
  }

  lemma StoredGrows(ps: seq<seq<byte>>, got: set<nat>, data: seq<byte>, j: nat)
    requires Datagram(ps) && Stored(ps, got, data) && j < |ps| && j !in got && Frag(ps, j).Fits()
    ensures Stored(ps, got + {j}, Store(data, Start(ps, j), ps[j]))
  {
    hide Datagram, Store, Has, Start;
    StoreHas(data, Start(ps, j), ps[j]);
    forall k | 0 <= k < |ps| && k in got ensures Has(Store(data, Start(ps, j), ps[j]), Start(ps, k), ps[k]) {
      OtherPieceStays(ps, data, j, k);
    }
  }

  predicate ClosesFirst(hs: seq<Hole>, f: Fragment)
    requires f.Fits()
  {
    1 < |hs| && f.first == hs[0].first && f.Last() == Truncate(hs[0], f.Max()).last
  }

  /**
   The two cases in which the function goes wrong: the hole at the head of the list is closed while others follow,
   and the last fragment is a single byte at the start of the hole that is open at its end.
   */
  predicate Mishandles(hs: seq<Hole>, f: Fragment)
    requires f.Fits()
  {
    || ClosesFirst(hs, f)
    || (!f.more && |f.payload| == 1 && Hole(f.first, MAXPACKET) in hs)
  }

  /** The gap of a missing piece. */
  ghost function GapOf(ps: seq<seq<byte>>, got: set<nat>, gs: seq<Gap>, j: nat): (i: nat)
    requires Gaps(ps, got, gs) && j < |ps| && j !in got
    ensures i < |gs| && gs[i].Has(j) && forall k :: 0 <= k < |gs| && gs[k].Has(j) ==> k == i
  {
    var i :| 0 <= i < |gs| && gs[i].Has(j);
    i
  }

  /** A fragment closes a hole just when its gap is this one piece and its end can be set. */
  lemma ClosesHole(ps: seq<seq<byte>>, g: Gap, j: nat)
    requires Datagram(ps) && g.from < g.to <= |ps| && j < |ps|
    ensures Frag(ps, j).Fits()
    ensures var f, h := Frag(ps, j), HoleOf(ps, g);
            f.first == h.first && f.Last() == Truncate(h, f.Max()).last <==> g == Gap(j, j + 1) && !LoneByte(ps, g, j)
  {
    if g.Has(j) {
      MeetsHole(ps, g, j);
    } else {
      PassesHole(ps, g, j);
      HoleReach(ps, g, g.from);
      FragFits(ps, j);
    }
    hide Datagram, Start, Truncate, Frag, HoleOf, Fragment.Max, Fragment.Fits, Fragment.Last;
  }

  lemma OpenHole(ps: seq<seq<byte>>, g: Gap, j: nat)
    requires Datagram(ps) && g.from < g.to <= |ps| && j + 1 == |ps| && |ps[j]| == 1
    ensures HoleOf(ps, g) == Hole(Start(ps, j), MAXPACKET) <==> g == Gap(j, j + 1)
  {
    StartGrows(ps, g.to, |ps|);
    StartGrows(ps, g.from, j);
  }

  /** The wrong cases, in terms of gaps. */
  lemma MishandlesByGap(ps: seq<seq<byte>>, got: set<nat>, gs: seq<Gap>, j: nat)
    requires Datagram(ps) && Gaps(ps, got, gs) && j < |ps| && j !in got
    ensures Frag(ps, j).Fits()
    ensures var i := GapOf(ps, got, gs, j);
            Mishandles(Holes(ps, gs), Frag(ps, j)) <==> LoneByte(ps, gs[i], j) || ClosesHead(gs, j)
  {
    var f, i, hs := Frag(ps, j), GapOf(ps, got, gs, j), Holes(ps, gs);
    FragFits(ps, j);
    if 1 < |gs| { ClosesHole(ps, gs[0], j); }
    if j + 1 == |ps| && |ps[j]| == 1 {
      forall k | 0 <= k < |gs| ensures hs[k] == Hole(f.first, MAXPACKET) <==> gs[k] == Gap(j, j + 1) {
        OpenHole(ps, gs[k], j);
      }
    }
    hide Datagram, Gaps, Start, Truncate, HoleOf, Fragment.Max, Fragment.Fits, Fragment.Last;
    if LoneByte(ps, gs[i], j) {
      assert gs[i] == Gap(j, j + 1);
      assert hs[i] == Hole(f.first, MAXPACKET);
    }
  }

  /** The size after a piece: the end of the datagram once the last piece is there. */
  lemma SizeIsKnown(ps: seq<seq<byte>>, got: set<nat>, size: nat, j: nat)
    requires Datagram(ps) && j < |ps| && Frag(ps, j).Fits()
    requires size < Start(ps, |ps|) && (|ps| - 1 in got ==> size == Start(ps, |ps|) - 1)
    ensures var last := Frag(ps, j).Last();
            var s := if last > size then last else size;
            s < Start(ps, |ps|) && (|ps| - 1 in got + {j} ==> s == Start(ps, |ps|) - 1)
  {
    hide *;
    FragFits(ps, j);
  }

  /** A fragment that did not come before, taken out of its gap. */
  lemma TakesPiece(ps: seq<seq<byte>>, got: set<nat>, gs: seq<Gap>, b: Buffer, j: nat)
    requires Tracks(ps, got, gs, b) && j < |ps| && j !in got
    ensures Frag(ps, j).Fits()
    ensures var f, i, r := Frag(ps, j), GapOf(ps, got, gs, j), Receive(b, Frag(ps, j));
            var hs := b.holes[i := Truncate(b.holes[i], f.Max())];
            && r.holes == Cut(hs, i, f.first, f.Last())
            && r.data == Store(b.data, f.first, f.payload) && Stored(ps, got + {j}, r.data)
            && r.size < Start(ps, |ps|) && (|ps| - 1 in got + {j} ==> r.size == Start(ps, |ps|) - 1)
  {
    var i := GapOf(ps, got, gs, j);
    FragFits(ps, j);
    WalkHits(ps, gs, i, j);
    StoredGrows(ps, got, b.data, j);
    SizeIsKnown(ps, got, b.size, j);
    hide Datagram, Gaps, Truncate, HoleOf, Cut, Store, Stored, Walk, Start, Inside, Fragment.Max, Fragment.Last,
      Fragment.Fits;
  }

  /** Nothing goes wrong: the buffer is right for one more piece. */
  lemma HandledRight(ps: seq<seq<byte>>, got: set<nat>, gs: seq<Gap>, b: Buffer, j: nat)
    requires Tracks(ps, got, gs, b) && j < |ps| && j !in got
    requires Frag(ps, j).Fits() && !Mishandles(b.holes, Frag(ps, j))
    ensures Tracks(ps, got + {j}, CutGap(gs, GapOf(ps, got, gs, j), j), Receive(b, Frag(ps, j)))
  {
    var i := GapOf(ps, got, gs, j);
    TakesPiece(ps, got, gs, b, j);
    MishandlesByGap(ps, got, gs, j);
    CutGapKeepsGaps(ps, got, gs, i, j);
    CutIsCutGap(ps, gs, i, j);
    hide Datagram, Gaps, Truncate, HoleOf, Cut, CutGap, Store, Stored, Walk, Mishandles, Receive;
  }

  /** A lone last byte leaves a hole behind the end of the datagram. */
  lemma LoneByteLeavesHole(ps: seq<seq<byte>>, got: set<nat>, gs: seq<Gap>, b: Buffer, j: nat)
    requires Tracks(ps, got, gs, b) && j < |ps| && j !in got && LoneByte(ps, gs[GapOf(ps, got, gs, j)], j)
    ensures Frag(ps, j).Fits()
    ensures Hole(Start(ps, |ps|), MAXPACKET) in Receive(b, Frag(ps, j)).holes
  {
    var i, f, r := GapOf(ps, got, gs, j), Frag(ps, j), Receive(b, Frag(ps, j));
    TakesPiece(ps, got, gs, b, j);
    MeetsHole(ps, gs[i], j);
    FragFits(ps, j);
    EndIsSet(ps, gs[i], j);
    OpenHole(ps, gs[i], j);
    hide Datagram, Gaps, Truncate, HoleOf, Store, Stored, Walk, Receive, Start;
    assert r.holes[i] == Hole(Start(ps, |ps|), MAXPACKET);
  }

  /** No gap of a datagram whose last piece came has a hole of unknown end. */
  lemma NoOpenHole(ps: seq<seq<byte>>, got: set<nat>, cs: seq<Gap>, first: nat)
    requires Datagram(ps) && Gaps(ps, got, cs) && |ps| - 1 in got
    ensures Hole(first, MAXPACKET) !in Holes(ps, cs)
  {
    forall k | 0 <= k < |cs| ensures Holes(ps, cs)[k] != Hole(first, MAXPACKET) {
      if cs[k].to == |ps| {
        assert cs[k].Has(|ps| - 1);
        assert false;
      }
      StartGrows(ps, cs[k].to, |ps|);
    }
  }

  /** Closing the head drops all holes, though pieces are missing. */
  lemma HeadCloseDropsHoles(ps: seq<seq<byte>>, got: set<nat>, gs: seq<Gap>, b: Buffer, j: nat)
    requires Tracks(ps, got, gs, b) && j < |ps| && j !in got
    requires ClosesHead(gs, j) && !LoneByte(ps, gs[GapOf(ps, got, gs, j)], j)
    ensures Frag(ps, j).Fits() && Receive(b, Frag(ps, j)).holes == []
    ensures exists m :: 0 <= m < |ps| && m !in got + {j}
  {
    assert gs[0].Has(j);
    var m := gs[1].from;
    assert gs[1].Has(m);
    assert m !in got + {j};
    TakesPiece(ps, got, gs, b, j);
    MeetsHole(ps, gs[0], j);
    hide Datagram, Gaps, Truncate, HoleOf, Store, Stored, Walk, Receive, Start;
  }

  /** Something goes wrong: no gaps fit the hole list that is left. */
  lemma HandledWrong(ps: seq<seq<byte>>, got: set<nat>, gs: seq<Gap>, b: Buffer, j: nat, cs: seq<Gap>)
    requires Tracks(ps, got, gs, b) && j < |ps| && j !in got && Frag(ps, j).Fits()
    ensures Mishandles(b.holes, Frag(ps, j)) ==> !Tracks(ps, got + {j}, cs, Receive(b, Frag(ps, j)))
  {
    MishandlesByGap(ps, got, gs, j);
    if Mishandles(b.holes, Frag(ps, j)) && Tracks(ps, got + {j}, cs, Receive(b, Frag(ps, j))) {
      if LoneByte(ps, gs[GapOf(ps, got, gs, j)], j) {
        LoneByteLeavesHole(ps, got, gs, b, j);
        NoOpenHole(ps, got + {j}, cs, Start(ps, |ps|));
      } else {
        HeadCloseDropsHoles(ps, got, gs, b, j);
      }
      assert false;
    }
  }

  /**
   A fragment that did not come before keeps the buffer right if and only if it is none of the two wrong cases;
   these can be told from the fragment and the hole list before the call.
   */
  lemma ReceiveKeeps(ps: seq<seq<byte>>, got: set<nat>, b: Buffer, j: nat)
    requires Kept(ps, got, b) && j < |ps| && j !in got
    ensures Frag(ps, j).Fits()
    ensures Kept(ps, got + {j}, Receive(b, Frag(ps, j))) <==> !Mishandles(b.holes, Frag(ps, j))
  {
    var gs: seq<Gap> :| Tracks(ps, got, gs, b);
    FragFits(ps, j);
    hide Tracks, Gaps, Datagram, Mishandles, Receive, CutGap;
    if Mishandles(b.holes, Frag(ps, j)) {
      forall cs ensures !Tracks(ps, got + {j}, cs, Receive(b, Frag(ps, j))) {
        HandledWrong(ps, got, gs, b, j, cs);
      }
    } else {
      HandledRight(ps, got, gs, b, j);
    }
  }

  lemma HasExtends(data: seq<byte>, front: seq<byte>, bytes: seq<byte>)
    requires |front| <= |data| && data[..|front|] == front && Has(data, |front|, bytes)
    ensures |front + bytes| <= |data| && data[..|front + bytes|] == front + bytes
  {}

  lemma JoinedStep(ps: seq<seq<byte>>, j: nat)
    requires j <= |ps|
    ensures Joined(ps, 0) == [] && Start(ps, 0) == 0
    ensures 0 < j ==> Joined(ps, j) == Joined(ps, j - 1) + ps[j - 1] && Start(ps, j) == Start(ps, j - 1) + |ps[j - 1]|
  {}

  /** The bytes of a datagram whose first pieces are in the buffer. */
  lemma {:induction false} StoredIsJoined(ps: seq<seq<byte>>, data: seq<byte>, j: nat)
    requires j <= |ps|
    requires forall k :: 0 <= k < j ==> Has(data, Start(ps, k), ps[k])
    ensures Start(ps, j) <= |data| && data[..Start(ps, j)] == Joined(ps, j)
  {
    hide Has, Joined, Start;
    JoinedStep(ps, j);
    if j > 0 {
      StoredIsJoined(ps, data, j - 1);
      HasExtends(data, Joined(ps, j - 1), ps[j - 1]);
    }
  }

  ghost predicate Complete(ps: seq<seq<byte>>, got: set<nat>) {
    forall j :: 0 <= j < |ps| ==> j in got
  }

  lemma CompleteHasNoGap(ps: seq<seq<byte>>, got: set<nat>, gs: seq<Gap>)
    requires Gaps(ps, got, gs)
    ensures Complete(ps, got) <==> gs == []
  {
    if gs != [] {
      assert gs[0].Has(gs[0].from);
      assert gs[0].from !in got;
    } else {
      forall j | 0 <= j < |ps| ensures j in got {
        assert !Covers(gs, j);
      }
    }
  }

  lemma StoredWhole(ps: seq<seq<byte>>, got: set<nat>, data: seq<byte>)
    requires Datagram(ps) && Stored(ps, got, data)
    ensures Complete(ps, got) ==> |ps| - 1 in got && data[..Start(ps, |ps|)] == Joined(ps, |ps|)
  {
    hide Has, Start;
    if Complete(ps, got) {
      StoredIsJoined(ps, data, |ps|);
    }
  }

  lemma TracksPlain(ps: seq<seq<byte>>, got: set<nat>, gs: seq<Gap>, b: Buffer)
    requires Tracks(ps, got, gs, b)
    ensures Datagram(ps) && Gaps(ps, got, gs) && Stored(ps, got, b.data)
    ensures |b.data| == MAXPACKET && b.size < |b.data| && (b.holes == [] <==> gs == [])
    ensures 0 < |ps| && (|ps| - 1 in got ==> b.size == Start(ps, |ps|) - 1)
  {
    hide Gaps, Start, HoleOf, Has;
  }

  lemma TracksDelivers(ps: seq<seq<byte>>, got: set<nat>, gs: seq<Gap>, b: Buffer)
    requires Tracks(ps, got, gs, b)
    ensures |b.data| == MAXPACKET && b.size < |b.data|
    ensures Delivered(b) == if Complete(ps, got) then Some(Joined(ps, |ps|)) else None
  {
    hide Tracks, Gaps, Start, HoleOf, Has, Joined, Complete, Stored, Datagram;
    TracksPlain(ps, got, gs, b);
    CompleteHasNoGap(ps, got, gs);
    StoredWhole(ps, got, b.data);
  }

  /** While the buffer is right, the datagram is delivered exactly when all pieces came, and is the original one. */
  lemma DeliversWhenComplete(ps: seq<seq<byte>>, got: set<nat>, b: Buffer)
    requires Kept(ps, got, b)
    ensures |b.data| == MAXPACKET && b.size < |b.data|
    ensures Delivered(b) == if Complete(ps, got) then Some(Joined(ps, |ps|)) else None
  {
    var gs: seq<Gap> :| Tracks(ps, got, gs, b);
    hide *;
    TracksDelivers(ps, got, gs, b);
  }

  ghost predicate InHole(hs: seq<Hole>, k: nat) {
    exists i :: 0 <= i < |hs| && hs[i].first <= k <= hs[i].last
  }

  ghost predicate InPiece(ps: seq<seq<byte>>, got: set<nat>, k: nat) {
    exists j :: 0 <= j < |ps| && j in got && Start(ps, j) <= k < Start(ps, j + 1)
  }

  /** The piece that byte `k` belongs to. */
  ghost function PieceOf(ps: seq<seq<byte>>, n: nat, k: nat): (j: nat)
    requires n <= |ps| && k < Start(ps, n)
    ensures j < n && Start(ps, j) <= k < Start(ps, j + 1)
  {
    if k < Start(ps, n - 1) then PieceOf(ps, n - 1, k) else n - 1
  }

  lemma HoleBytes(ps: seq<seq<byte>>, g: Gap, k: nat)
    requires Datagram(ps) && g.from < g.to <= |ps| && k <= MAXPACKET
    ensures var h := HoleOf(ps, g);
            h.first <= k <= h.last <==>
              if k < Start(ps, |ps|) then g.Has(PieceOf(ps, |ps|, k)) else g.to == |ps|
  {
    StartGrows(ps, g.to, |ps|);
    StartGrows(ps, g.from, |ps|);
    if k < Start(ps, |ps|) {
      var j := PieceOf(ps, |ps|, k);
      if j < g.from { StartGrows(ps, j + 1, g.from); } else { StartGrows(ps, g.from, j); }
      if j < g.to { StartGrows(ps, j + 1, g.to); } else { StartGrows(ps, g.to, j); }
    }
  }

  lemma OnePiece(ps: seq<seq<byte>>, i: nat, j: nat, k: nat)
    requires Datagram(ps) && i < |ps| && j < |ps|
    requires Start(ps, i) <= k < Start(ps, i + 1) && Start(ps, j) <= k < Start(ps, j + 1)
    ensures i == j
  {
    if i < j { StartGrows(ps, i + 1, j); }
    if j < i { StartGrows(ps, j + 1, i); }
  }

  /** Below the end of the datagram, a byte is in a hole exactly when its piece is in a gap. */
  lemma HoleBelowEnd(ps: seq<seq<byte>>, gs: seq<Gap>, k: nat)
    requires Datagram(ps) && Inside(ps, gs) && k < Start(ps, |ps|)
    ensures InHole(Holes(ps, gs), k) <==> Covers(gs, PieceOf(ps, |ps|, k))
  {
    var hs := Holes(ps, gs);
    forall i | 0 <= i < |gs| ensures hs[i].first <= k <= hs[i].last <==> gs[i].Has(PieceOf(ps, |ps|, k)) {
      HoleBytes(ps, gs[i], k);
    }
    hide Datagram, PieceOf, Start, HoleOf, Holes;
  }

  /** Behind the end, it is in a hole exactly when the last piece is in a gap. */
  lemma HoleBehindEnd(ps: seq<seq<byte>>, gs: seq<Gap>, k: nat)
    requires Datagram(ps) && Inside(ps, gs) && Start(ps, |ps|) <= k <= MAXPACKET
    ensures InHole(Holes(ps, gs), k) <==> Covers(gs, |ps| - 1)
  {
    var hs := Holes(ps, gs);
    forall i | 0 <= i < |gs| ensures hs[i].first <= k <= hs[i].last <==> gs[i].Has(|ps| - 1) {
      HoleBytes(ps, gs[i], k);
    }
    hide Datagram, PieceOf, Start, HoleOf, Holes;
  }

  lemma InPieceOf(ps: seq<seq<byte>>, got: set<nat>, k: nat)
    requires Datagram(ps) && k < Start(ps, |ps|)
    ensures InPiece(ps, got, k) <==> PieceOf(ps, |ps|, k) in got
  {
    var j := PieceOf(ps, |ps|, k);
    if InPiece(ps, got, k) {
      var i :| 0 <= i < |ps| && i in got && Start(ps, i) <= k < Start(ps, i + 1);
      OnePiece(ps, i, j, k);
    }
  }

  lemma GapsCover(ps: seq<seq<byte>>, got: set<nat>, gs: seq<Gap>, j: nat)
    requires Gaps(ps, got, gs) && j < |ps|
    ensures Covers(gs, j) <==> j !in got
  {}

  /** While the buffer is right, a byte position is in a hole exactly when it may still come and did not. */
  lemma HolesAreMissingBytes(ps: seq<seq<byte>>, got: set<nat>, b: Buffer, k: nat)
    requires Kept(ps, got, b) && k <= MAXPACKET
    ensures InHole(b.holes, k) <==>
            !InPiece(ps, got, k) && !(|ps| - 1 in got && Start(ps, |ps|) <= k)
  {
    var gs: seq<Gap> :| Tracks(ps, got, gs, b);
    assert 0 < |ps|;
    hide Datagram, PieceOf, Start, Holes, InHole, InPiece, Gaps, Covers, Stored;
    if k < Start(ps, |ps|) {
      HoleBelowEnd(ps, gs, k);
      InPieceOf(ps, got, k);
      GapsCover(ps, got, gs, PieceOf(ps, |ps|, k));
    } else {
      HoleBehindEnd(ps, gs, k);
      NotInPiece(ps, got, k);
      GapsCover(ps, got, gs, |ps| - 1);
    }
  }

  lemma NotInPiece(ps: seq<seq<byte>>, got: set<nat>, k: nat)
    requires Datagram(ps) && Start(ps, |ps|) <= k
    ensures !InPiece(ps, got, k)
  {
    if InPiece(ps, got, k) {
      var j :| 0 <= j < |ps| && j in got && Start(ps, j) <= k < Start(ps, j + 1);
      StartGrows(ps, j + 1, |ps|);
    }
  }

  // ---------------------------------------------------------------- whole runs

  /** A run of fragments, by their numbers. */
  predicate Numbers(ps: seq<seq<byte>>, js: seq<nat>) {
    forall k :: 0 <= k < |js| ==> js[k] < |ps|
  }

  /** The buffer after a run of fragments, given by their numbers. */
  function Arrive(ps: seq<seq<byte>>, js: seq<nat>): (b: Buffer)
    requires Datagram(ps) && Numbers(ps, js)
    ensures |b.data| == MAXPACKET
    decreases |js|
  {
    if js == [] then Fresh()
    else
      var f := Frag(ps, js[|js| - 1]);
      FragFits(ps, js[|js| - 1]);
      Receive(Arrive(ps, js[..|js| - 1]), f)
  }

  /** At no fragment that did not come before, one of the two wrong cases is met. */
  predicate Safe(ps: seq<seq<byte>>, js: seq<nat>)
    requires Datagram(ps) && Numbers(ps, js)
    decreases |js|
  {
    js == [] ||
    var n := |js| - 1;
    FragFits(ps, js[n]);
    && Safe(ps, js[..n])
    && (js[n] !in js[..n] ==> !Mishandles(Arrive(ps, js[..n]).holes, Frag(ps, js[n])))
  }

  ghost function Came(js: seq<nat>): set<nat> {
    set j | j in js
  }

  /** A safe run keeps the buffer right. */
  lemma {:induction false} ArriveKeeps(ps: seq<seq<byte>>, js: seq<nat>)
    requires Datagram(ps) && Numbers(ps, js)
    ensures Safe(ps, js) ==> Kept(ps, Came(js), Arrive(ps, js))
    decreases |js|
  {
    if js == [] {
      FreshKept(ps);
      assert Came(js) == {};
    } else {
      var n := |js| - 1;
      var ks, j := js[..n], js[n];
      ArriveKeeps(ps, ks);
      FragFits(ps, j);
      assert js == ks + [j];
      assert Came(js) == Came(ks) + {j};
      hide Kept, Datagram, Frag, Mishandles, Receive;
      if Safe(ps, js) {
        if j in ks {
          DuplicateIgnored(ps, Came(ks), Arrive(ps, ks), j);
          assert Came(js) == Came(ks);
        } else {
          ReceiveKeeps(ps, Came(ks), Arrive(ps, ks), j);
        }
      }
    }
  }

  ghost predicate AllCame(ps: seq<seq<byte>>, js: seq<nat>) {
    forall j :: 0 <= j < |ps| ==> j in js
  }

  lemma AllCameIsComplete(ps: seq<seq<byte>>, js: seq<nat>)
    ensures AllCame(ps, js) <==> Complete(ps, Came(js))
  {
    assert forall j: nat :: j in Came(js) <==> j in js;
  }

  /**
   The fragments of a datagram, in any order and with any repetitions: as long as no wrong case is met, nothing is
   delivered until every fragment came, and then the original datagram.
   */
  lemma Reassembles(ps: seq<seq<byte>>, js: seq<nat>)
    requires Datagram(ps) && Numbers(ps, js) && Safe(ps, js)
    ensures var b := Arrive(ps, js);
            && b.size < |b.data|
            && Delivered(b) == if AllCame(ps, js) then Some(Joined(ps, |ps|)) else None
  {
    hide *;
    ArriveKeeps(ps, js);
    AllCameIsComplete(ps, js);
    DeliversWhenComplete(ps, Came(js), Arrive(ps, js));
  }

  lemma CameMore(js: seq<nat>, n: nat)
    requires n < |js|
    ensures js[..n + 1][..n] == js[..n] && Came(js[..n + 1]) == Came(js[..n]) + {js[n]}
  {
    assert js[..n + 1] == js[..n] + [js[n]];
  }

  ghost predicate RightAfter(ps: seq<seq<byte>>, js: seq<nat>, n: nat)
    requires Datagram(ps) && Numbers(ps, js) && n <= |js|
  {
    Kept(ps, Came(js[..n]), Arrive(ps, js[..n]))
  }

  lemma {:induction false} SafeIfRight(ps: seq<seq<byte>>, js: seq<nat>, n: nat)
    requires Datagram(ps) && Numbers(ps, js) && n <= |js|
    requires forall m :: 0 <= m <= |js| ==> RightAfter(ps, js, m)
    ensures Safe(ps, js[..n])
  {
    hide Datagram, Kept, Receive, Mishandles, Frag, Came;
    if n > 0 {
      SafeIfRight(ps, js, n - 1);
      CameMore(js, n - 1);
      FragFits(ps, js[n - 1]);
      assert RightAfter(ps, js, n - 1) && RightAfter(ps, js, n);
      CameIs(js[..n - 1], js[n - 1]);
      if js[n - 1] !in js[..n - 1] {
        ReceiveKeeps(ps, Came(js[..n - 1]), Arrive(ps, js[..n - 1]), js[n - 1]);
      }
    }
  }

  lemma CameIs(js: seq<nat>, j: nat)
    ensures j in Came(js) <==> j in js
  {}

  lemma {:induction false} SafePrefix(ps: seq<seq<byte>>, js: seq<nat>, n: nat)
    requires Datagram(ps) && Numbers(ps, js) && n <= |js| && Safe(ps, js)
    ensures Safe(ps, js[..n])
    decreases |js|
  {
    hide Datagram, Mishandles, Frag, Arrive;
    if n == |js| {
      assert js[..n] == js;
    } else {
      SafePrefix(ps, js[..|js| - 1], n);
      assert js[..|js| - 1][..n] == js[..n];
    }
  }

  /**
   A run meets no wrong case if and only if the buffer is right after every fragment. This is more than a right result
   at the end needs: a wrong case can be made up for by later fragments.
   */
  lemma SafeExactly(ps: seq<seq<byte>>, js: seq<nat>)
    requires Datagram(ps) && Numbers(ps, js)
    ensures Safe(ps, js) <==> forall n :: 0 <= n <= |js| ==> RightAfter(ps, js, n)
  {
    hide Datagram, Safe, Arrive, Came, Kept;
    assert js[..|js|] == js;
    if Safe(ps, js) {
      forall n | 0 <= n <= |js| ensures RightAfter(ps, js, n) {
        SafePrefix(ps, js, n);
        ArriveKeeps(ps, js[..n]);
      }
    } else if forall n :: 0 <= n <= |js| ==> RightAfter(ps, js, n) {
      SafeIfRight(ps, js, |js|);
    }
  }

  // ---------------------------------------------------------------- what an early delivery delivers

  /** Closing the head of a longer list delivers early: the bytes of some piece are missing. */
  lemma HeadCloseDeliversEarly(ps: seq<seq<byte>>, got: set<nat>, b: Buffer, j: nat)
    requires Kept(ps, got, b) && j < |ps| && j !in got && Frag(ps, j).Fits() && ClosesFirst(b.holes, Frag(ps, j))
    ensures Receive(b, Frag(ps, j)).holes == [] && !Complete(ps, got + {j})
  {
    var gs: seq<Gap> :| Tracks(ps, got, gs, b);
    ClosesHole(ps, gs[0], j);
    assert gs[0].Has(j);
    hide Datagram, Start, Frag, Truncate, HoleOf, Receive, Fragment.Fits, Fragment.Max, Fragment.Last;
    HeadCloseDropsHoles(ps, got, gs, b, j);
  }

  lemma {:induction false} JoinedAt(ps: seq<seq<byte>>, n: nat, j: nat, k: nat)
    requires Datagram(ps) && j < n <= |ps| && Start(ps, j) <= k < Start(ps, j + 1)
    ensures k < Start(ps, n) && Joined(ps, n)[k] == ps[j][k - Start(ps, j)]
  {
    JoinedStep(ps, n);
    StartGrows(ps, j + 1, n);
    if j + 1 < n {
      JoinedAt(ps, n - 1, j, k);
    }
  }

  lemma StoredByte(data: seq<byte>, at: nat, bytes: seq<byte>, k: nat)
    requires at + |bytes| <= |data| && k < |data|
    ensures |Store(data, at, bytes)| == |data|
    ensures Store(data, at, bytes)[k] == if at <= k < at + |bytes| then bytes[k - at] else data[k]
  {}

  lemma ReceivedByte(ps: seq<seq<byte>>, b: Buffer, j: nat, k: nat)
    requires Datagram(ps) && j < |ps| && |b.data| == MAXPACKET && k < MAXPACKET
    ensures Frag(ps, j).Fits()
    ensures !(Start(ps, j) <= k < Start(ps, j + 1)) ==> Receive(b, Frag(ps, j)).data[k] == b.data[k]
  {
    FragFits(ps, j);
    hide Datagram, Walk, Start, Store;
    StoredByte(b.data, Start(ps, j), ps[j], k);
  }

  lemma InPieceMore(ps: seq<seq<byte>>, got: set<nat>, j: nat, k: nat)
    requires j < |ps| && (InPiece(ps, got, k) || Start(ps, j) <= k < Start(ps, j + 1))
    ensures InPiece(ps, got + {j}, k)
  {
    hide Start;
    assert j in got + {j};
    if InPiece(ps, got, k) {
      var i :| 0 <= i < |ps| && i in got && Start(ps, i) <= k < Start(ps, i + 1);
      assert i in got + {j};
    }
  }

  /** In every run, the bytes of the pieces that did not come are zero. */
  lemma {:induction false} MissingIsZero(ps: seq<seq<byte>>, js: seq<nat>, k: nat)
    requires Datagram(ps) && Numbers(ps, js) && k < MAXPACKET && !InPiece(ps, Came(js), k)
    ensures Arrive(ps, js).data[k] == 0
    decreases |js|
  {
    hide Datagram, Receive, Frag, InPiece, Came, Start;
    if js != [] {
      var n := |js| - 1;
      assert js[..n + 1] == js;
      CameMore(js, n);
      FragFits(ps, js[n]);
      if InPiece(ps, Came(js[..n]), k) || Start(ps, js[n]) <= k < Start(ps, js[n] + 1) {
        InPieceMore(ps, Came(js[..n]), js[n], k);
        assert false;
      }
      MissingIsZero(ps, js[..n], k);
      ReceivedByte(ps, Arrive(ps, js[..n]), js[n], k);
    }
  }

  /** The byte of the datagram, if its piece came, and else zero. */
  ghost function Patchy(ps: seq<seq<byte>>, got: set<nat>, k: nat): byte
    requires k < Start(ps, |ps|)
  {
    if InPiece(ps, got, k) then Joined(ps, |ps|)[k] else 0
  }

  lemma ByteOf(data: seq<byte>, at: nat, bytes: seq<byte>, k: nat)
    requires Has(data, at, bytes) && at <= k < at + |bytes|
    ensures k < |data| && data[k] == bytes[k - at]
  {
    assert data[k] == data[at..at + |bytes|][k - at];
  }

  lemma StoredPatch(ps: seq<seq<byte>>, got: set<nat>, data: seq<byte>, k: nat)
    requires Datagram(ps) && Stored(ps, got, data) && k < Start(ps, |ps|) && InPiece(ps, got, k)
    ensures k < |data| && data[k] == Joined(ps, |ps|)[k]
  {
    hide Joined, Has, Start, Datagram;
    var j :| 0 <= j < |ps| && j in got && Start(ps, j) <= k < Start(ps, j + 1);
    JoinedStep(ps, j + 1);
    JoinedAt(ps, |ps|, j, k);
    ByteOf(data, Start(ps, j), ps[j], k);
  }

  /** What is in the buffer after a run with the received bytes in place. */
  lemma PatchyBytes(ps: seq<seq<byte>>, js: seq<nat>)
    requires Datagram(ps) && Numbers(ps, js) && Stored(ps, Came(js), Arrive(ps, js).data)
    ensures Start(ps, |ps|) <= MAXPACKET
    ensures forall k :: 0 <= k < Start(ps, |ps|) ==> Arrive(ps, js).data[k] == Patchy(ps, Came(js), k)
  {
    hide Datagram, Start, Came, Joined, Stored, InPiece, Arrive;
    DatagramFits(ps);
    forall k | 0 <= k < Start(ps, |ps|) ensures Arrive(ps, js).data[k] == Patchy(ps, Came(js), k) {
      if InPiece(ps, Came(js), k) {
        StoredPatch(ps, Came(js), Arrive(ps, js).data, k);
      } else {
        MissingIsZero(ps, js, k);
      }
    }
  }

  lemma ArriveMore(ps: seq<seq<byte>>, js: seq<nat>, j: nat)
    requires Datagram(ps) && Numbers(ps, js) && j < |ps|
    ensures Numbers(ps, js + [j]) && Came(js + [j]) == Came(js) + {j} && Frag(ps, j).Fits()
    ensures Arrive(ps, js + [j]) == Receive(Arrive(ps, js), Frag(ps, j))
  {
    FragFits(ps, j);
    assert (js + [j])[..|js|] == js;
    hide Datagram, Receive, Frag;
  }

  /** The state after the head of a longer list was closed. */
  lemma EarlyState(ps: seq<seq<byte>>, got: set<nat>, b: Buffer, j: nat)
    requires Kept(ps, got, b) && j < |ps| && j !in got && Frag(ps, j).Fits() && ClosesFirst(b.holes, Frag(ps, j))
    ensures Datagram(ps)
    ensures var r := Receive(b, Frag(ps, j));
            && r.holes == [] && Stored(ps, got + {j}, r.data) && !Complete(ps, got + {j})
            && r.size < Start(ps, |ps|) && (|ps| - 1 in got + {j} ==> r.size + 1 == Start(ps, |ps|))
  {
    HeadCloseDeliversEarly(ps, got, b, j);
    var gs: seq<Gap> :| Tracks(ps, got, gs, b);
    TakesPiece(ps, got, gs, b, j);
    hide Start, Frag, Truncate, HoleOf, Receive, Fragment.Fits, Fragment.Max, Fragment.Last, Gaps, Stored;
  }

  /**
   Closing the head of a longer list delivers early, with zeros for the bytes of the missing pieces; if the last piece
   came, then with the length of the datagram.
   */
  lemma EarlyDelivery(ps: seq<seq<byte>>, js: seq<nat>, j: nat)
    requires Datagram(ps) && Numbers(ps, js) && Kept(ps, Came(js), Arrive(ps, js)) && j < |ps| && j !in js
    requires Frag(ps, j).Fits() && ClosesFirst(Arrive(ps, js).holes, Frag(ps, j))
    ensures Numbers(ps, js + [j]) && !AllCame(ps, js + [j])
    ensures var b := Arrive(ps, js + [j]);
            && b.size < Start(ps, |ps|) <= |b.data| && (|ps| - 1 in js + [j] ==> b.size + 1 == Start(ps, |ps|))
            && Delivered(b) == Some(seq(b.size + 1, k requires 0 <= k <= b.size => Patchy(ps, Came(js + [j]), k)))
  {
    hide Datagram, Start, Frag, Receive, Fragment.Fits, Came, Joined, Stored, InPiece, Kept, Arrive, ClosesFirst, AllCame,
      Complete, Patchy;
    CameIs(js, j);
    CameIs(js + [j], |ps| - 1);
    DatagramFits(ps);
    ArriveMore(ps, js, j);
    EarlyState(ps, Came(js), Arrive(ps, js), j);
    AllCameIsComplete(ps, js + [j]);
    PatchyBytes(ps, js + [j]);
    var b := Arrive(ps, js + [j]);
    assert b.data[..b.size + 1] == seq(b.size + 1, k requires 0 <= k <= b.size => Patchy(ps, Came(js + [j]), k));
  }

  lemma DatagramFits(ps: seq<seq<byte>>)
    requires Datagram(ps)
    ensures 0 < |ps| && 0 < Start(ps, |ps|) <= MAXPACKET
  {
    StartGrows(ps, 0, |ps|);
  }

  /** The numbers 0, 1, .. k-1. */
  function Rising(k: nat): (js: seq<nat>)
    ensures |js| == k && forall i :: 0 <= i < k ==> js[i] == i
  {
    seq(k, i requires 0 <= i => i)
  }

  /** One gap, and a piece at one of its ends: the rest of the gap is left. */
  lemma TakesFromEnd(ps: seq<seq<byte>>, got: set<nat>, g: Gap, b: Buffer, j: nat)
    requires Tracks(ps, got, [g], b) && j < |ps| && j !in got && !LoneByte(ps, g, j)
    requires j == g.from || j + 1 == g.to
    ensures Frag(ps, j).Fits()
    ensures var rest := if j == g.from then Gap(j + 1, g.to) else Gap(g.from, j);
            Tracks(ps, got + {j}, if g == Gap(j, j + 1) then [] else [rest], Receive(b, Frag(ps, j)))
  {
    assert [g][0] == g;
    FragFits(ps, j);
    MishandlesByGap(ps, got, [g], j);
    assert GapOf(ps, got, [g], j) == 0;
    HandledRight(ps, got, [g], b, j);
    hide Datagram, Gaps, Receive, Mishandles, Tracks, Frag;
    assert CutGap([g], 0, j) == if g == Gap(j, j + 1) then [] else [if j == g.from then Gap(j + 1, g.to) else Gap(g.from, j)];
  }

  lemma ArriveRising(ps: seq<seq<byte>>, k: nat)
    requires Datagram(ps) && k < |ps|
    ensures Frag(ps, k).Fits() && k !in Came(Rising(k)) && Came(Rising(k + 1)) == Came(Rising(k)) + {k}
    ensures Arrive(ps, Rising(k + 1)) == Receive(Arrive(ps, Rising(k)), Frag(ps, k))
  {
    hide Datagram, Receive, Frag, Arrive, Came, Fragment.Fits;
    assert Rising(k + 1) == Rising(k) + [k];
    ArriveMore(ps, Rising(k), k);
    CameIs(Rising(k), k);
  }

  lemma InOrderStep(ps: seq<seq<byte>>, k: nat)
    requires Datagram(ps) && k + 1 < |ps|
    ensures Tracks(ps, Came(Rising(k)), [Gap(k, |ps|)], Arrive(ps, Rising(k)))
            ==> Tracks(ps, Came(Rising(k + 1)), [Gap(k + 1, |ps|)], Arrive(ps, Rising(k + 1)))
  {
    hide Datagram, Gaps, Receive, Frag, Came, Tracks, Arrive, Rising;
    ArriveRising(ps, k);
    if Tracks(ps, Came(Rising(k)), [Gap(k, |ps|)], Arrive(ps, Rising(k))) {
      TakesFromEnd(ps, Came(Rising(k)), Gap(k, |ps|), Arrive(ps, Rising(k)), k);
    }
  }

  lemma {:induction false} InOrderTracks(ps: seq<seq<byte>>, k: nat)
    requires Datagram(ps) && k < |ps|
    ensures Tracks(ps, Came(Rising(k)), [Gap(k, |ps|)], Arrive(ps, Rising(k)))
  {
    hide Tracks, Receive, Frag, Datagram;
    if k == 0 {
      FreshKept(ps);
      assert Came(Rising(0)) == {};
    } else {
      hide *;
      InOrderTracks(ps, k - 1);
      InOrderStep(ps, k - 1);
    }
  }

  /** Fragments in order: the datagram is delivered if and only if the last one has at least two bytes. */
  lemma InOrderDelivers(ps: seq<seq<byte>>)
    requires Datagram(ps)
    ensures var b := Arrive(ps, Rising(|ps|));
            && b.size < |b.data|
            && Delivered(b) == if 2 <= |ps[|ps| - 1]| then Some(Joined(ps, |ps|)) else None
  {
    var j := |ps| - 1;
    var got, g, a := Came(Rising(j)), Gap(j, |ps|), Arrive(ps, Rising(j));
    InOrderTracks(ps, j);
    ArriveRising(ps, j);
    assert [g][0].Has(j);
    if 2 <= |ps[j]| {
      TakesFromEnd(ps, got, g, a, j);
      CompleteHasNoGap(ps, got + {j}, []);
      DeliversWhenComplete(ps, got + {j}, Arrive(ps, Rising(|ps|)));
    } else {
      assert 0 < |ps[j]|;
      assert GapOf(ps, got, [g], j) == 0;
      LoneByteLeavesHole(ps, got, [g], a, j);
      TakesPiece(ps, got, [g], a, j);
    }
  }

  /** The numbers 1, 2, .. k. */
  function FromSecond(k: nat): (js: seq<nat>)
    ensures |js| == k && forall i :: 0 <= i < k ==> js[i] == i + 1
  {
    seq(k, i requires 0 <= i => i + 1)
  }

  lemma ArriveFromSecond(ps: seq<seq<byte>>, k: nat)
    requires Datagram(ps) && k + 1 < |ps|
    ensures Frag(ps, k + 1).Fits() && k + 1 !in Came(FromSecond(k)) && 0 !in Came(FromSecond(k))
    ensures Came(FromSecond(k + 1)) == Came(FromSecond(k)) + {k + 1}
    ensures Arrive(ps, FromSecond(k + 1)) == Receive(Arrive(ps, FromSecond(k)), Frag(ps, k + 1))
  {
    hide Datagram, Receive, Frag, Arrive, Came, Fragment.Fits;
    assert FromSecond(k + 1) == FromSecond(k) + [k + 1];
    ArriveMore(ps, FromSecond(k), k + 1);
    CameIs(FromSecond(k), k + 1);
    CameIs(FromSecond(k), 0);
  }

  /** The gaps after the pieces 1..k: what follows, and the first piece, which then is not the head of the list. */
  ghost function GapsFromSecond(ps: seq<seq<byte>>, k: nat): seq<Gap> {
    if k == 0 then [Gap(0, |ps|)] else [Gap(k + 1, |ps|), Gap(0, 1)]
  }

  lemma FromSecondStep(ps: seq<seq<byte>>, got: set<nat>, b: Buffer, k: nat)
    requires k + 2 < |ps| && k + 1 !in got && Tracks(ps, got, GapsFromSecond(ps, k), b)
    ensures Frag(ps, k + 1).Fits()
    ensures Tracks(ps, got + {k + 1}, GapsFromSecond(ps, k + 1), Receive(b, Frag(ps, k + 1)))
  {
    hide Receive, Mishandles, Frag, Stored, Holes;
    var gs, j := GapsFromSecond(ps, k), k + 1;
    FragFits(ps, j);
    assert gs[0].Has(j);
    assert GapOf(ps, got, gs, j) == 0;
    MishandlesByGap(ps, got, gs, j);
    HandledRight(ps, got, gs, b, j);
    assert CutGap(gs, 0, j) == GapsFromSecond(ps, k + 1);
  }

  lemma {:induction false} FromSecondTracks(ps: seq<seq<byte>>, k: nat)
    requires Datagram(ps) && k + 1 < |ps|
    ensures Tracks(ps, Came(FromSecond(k)), GapsFromSecond(ps, k), Arrive(ps, FromSecond(k)))
  {
    hide Tracks, Receive, Frag, Datagram;
    if k == 0 {
      FreshKept(ps);
      assert Came(FromSecond(0)) == {};
    } else {
      FromSecondTracks(ps, k - 1);
      ArriveFromSecond(ps, k - 1);
      FromSecondStep(ps, Came(FromSecond(k - 1)), Arrive(ps, FromSecond(k - 1)), k - 1);
    }
  }

  /** With only the first and the last piece missing, the last one closes the head of the list. */
  lemma LastClosesHead(ps: seq<seq<byte>>, got: set<nat>, b: Buffer)
    requires 3 <= |ps| && 2 <= |ps[|ps| - 1]| && Tracks(ps, got, GapsFromSecond(ps, |ps| - 2), b)
    ensures Frag(ps, |ps| - 1).Fits() && ClosesFirst(b.holes, Frag(ps, |ps| - 1))
  {
    hide Datagram, Gaps, Stored, Start, Frag, HoleOf, Truncate;
    var j := |ps| - 1;
    ClosesHole(ps, Gap(j, |ps|), j);
    assert b.holes[0] == HoleOf(ps, Gap(j, |ps|));
  }

  /** All pieces but the first came. */
  lemma PatchyFirst(ps: seq<seq<byte>>, got: set<nat>, k: nat)
    requires Datagram(ps) && k < Start(ps, |ps|) && forall j: nat :: j < |ps| ==> (j in got <==> j != 0)
    ensures Patchy(ps, got, k) == if k < |ps[0]| then 0 else Joined(ps, |ps|)[k]
  {
    hide Joined, InPiece;
    InPieceOf(ps, got, k);
    var j := PieceOf(ps, |ps|, k);
    if 0 < j {
      StartGrows(ps, 1, j);
    }
    assert Start(ps, 1) == |ps[0]|;
  }

  /**
   The head of a longer list is closed in practice: of every datagram of at least three pieces, with a last one of at
   least two bytes, all pieces but the first are delivered as a datagram when they come in order, with zeros for it.
   */
  lemma FirstMissingDelivers(ps: seq<seq<byte>>)
    requires Datagram(ps) && 3 <= |ps| && 2 <= |ps[|ps| - 1]|
    ensures var b := Arrive(ps, FromSecond(|ps| - 1));
            && b.size < |b.data| && |ps[0]| <= |Joined(ps, |ps|)|
            && Delivered(b) == Some(Zeros(|ps[0]|) + Joined(ps, |ps|)[|ps[0]|..])
  {
    hide Datagram, Tracks, Arrive, Frag, Receive, Joined, ClosesFirst, Patchy, Start, Fragment.Fits;
    var n := |ps| - 2;
    var js, all := FromSecond(n), FromSecond(n + 1);
    assert all == js + [n + 1];
    FromSecondTracks(ps, n);
    LastClosesHead(ps, Came(js), Arrive(ps, js));
    assert Kept(ps, Came(js), Arrive(ps, js));
    EarlyDelivery(ps, js, n + 1);
    FirstPiece(ps);
    var size := Start(ps, |ps|);
    forall j: nat | j < |ps| ensures j in Came(all) <==> j != 0 {
      if j != 0 {
        assert all[j - 1] == j;
      }
    }
    forall k | 0 <= k < size ensures Patchy(ps, Came(all), k) == (Zeros(|ps[0]|) + Joined(ps, |ps|)[|ps[0]|..])[k] {
      PatchyFirst(ps, Came(all), k);
    }
    assert all[n] == |ps| - 1;
    assert seq(size, k requires 0 <= k < size => Patchy(ps, Came(all), k)) == Zeros(|ps[0]|) + Joined(ps, |ps|)[|ps[0]|..];
    assert Delivered(Arrive(ps, all)).value == seq(size, k requires 0 <= k < size => Patchy(ps, Came(all), k));
  }

  lemma FirstPiece(ps: seq<seq<byte>>)
    requires Datagram(ps)
    ensures |ps[0]| <= Start(ps, |ps|) == |Joined(ps, |ps|)|
  {
    StartGrows(ps, 1, |ps|);
    assert Start(ps, 1) == |ps[0]|;
  }

  // ---------------------------------------------------------------- the tree of datagrams

  /** What tells datagrams apart. */
  datatype Key = Key(src: nat, dst: nat, ident: nat)

  function BufferOf(t: map<Key, Buffer>, key: Key): Buffer {
    if key in t then t[key] else Fresh()
  }

  ghost predicate Usable(t: map<Key, Buffer>) {
    forall k <- t :: |t[k].data| == MAXPACKET && t[k].size < MAXPACKET
  }

  /** One call: the node is made if there is none, and removed when its datagram is complete. */
  function TreeUpdate(t: map<Key, Buffer>, key: Key, f: Fragment): (r: (map<Key, Buffer>, Option<seq<byte>>))
    requires Usable(t) && f.Fits()
    ensures Usable(r.0)
  {
    var b := Receive(BufferOf(t, key), f);
    if b.holes == [] then (t - {key}, Delivered(b)) else (t[key := b], None)
  }

  class FragTree {
    var nodes: map<Key, Node>

    ghost predicate Valid()
      reads this, nodes.Values
    {
      Proper() && forall k <- nodes :: nodes[k].dataSize < MAXPACKET
    }

    ghost predicate Proper()
      reads this, nodes.Values
    {
      && (forall k <- nodes :: nodes[k].Valid())
      && (forall k, l :: k in nodes && l in nodes && k != l ==> nodes[k] != nodes[l] && nodes[k].data != nodes[l].data)
    }

    ghost function Data(): set<object>
      reads this, nodes.Values
    {
      set k | k in nodes :: nodes[k].data
    }

    ghost function State(): map<Key, Buffer>
      reads this, nodes.Values, Data()
    {
      map k | k in nodes :: nodes[k].State()
    }

    /** IPFragTree_init */
    constructor ()
      ensures Valid() && State() == map[]
    {
      nodes := map[];
    }

    /** The node of a datagram; New_node makes it if there is none. */
    method Find(key: Key) returns (n: Node)
      requires Valid()
      modifies this
      ensures Valid() && key in nodes && nodes[key] == n
      ensures n.State() == BufferOf(old(State()), key)
      ensures State() == old(State())[key := n.State()]
      ensures nodes.Values - old(nodes.Values) <= {n} && (n in old(nodes.Values) || (fresh(n) && fresh(n.data)))
      ensures key in old(nodes) ==> nodes == old(nodes)
    {
      hide Fresh, Node.State;
      if key in nodes {
        n := nodes[key];
      } else {
        n := new Node();
        nodes := nodes[key := n];
      }
    }
  
    /** The fragment goes to the node of its datagram; the others stay as they are. */
    method Pass(key: Key, f: Fragment) returns (complete: bool, data: seq<byte>)
      requires Valid() && key in nodes && f.Fits()
      modifies nodes[key], nodes[key].data
      ensures Proper() && forall k <- nodes :: k != key || !complete ==> nodes[k].dataSize < MAXPACKET
      ensures nodes[key].data == old(nodes[key].data)
      ensures var b := Receive(old(nodes[key].State()), f);
              && b.size < |b.data| && complete == (b.holes == [])
              && (if complete then Some(data) == Delivered(b) else nodes[key].State() == b)
      ensures State() == old(State())[key := nodes[key].State()]
    {
      hide Fresh, Walk, Cut, Store;
      var n := nodes[key];
      var length: nat;
      complete, length := n.Update(f);
      data := if complete then n.data[..length] else [];
    }

    /** Remove_node */
    method Remove(key: Key)
      requires Proper() && key in nodes && forall k <- nodes :: k != key ==> nodes[k].dataSize < MAXPACKET
      modifies this
      ensures Valid() && State() == old(State()) - {key}
    {
      nodes := nodes - {key};
    }

    /** The rest of the call, once the node is there. */
    method Settle(key: Key, f: Fragment) returns (r: Option<seq<byte>>)
      requires Valid() && key in nodes && f.Fits()
      modifies this, nodes[key], nodes[key].data
      ensures Valid() && State() == TreeUpdate(old(State()), key, f).0 && r == TreeUpdate(old(State()), key, f).1
    {
      ghost var t, b := State(), Receive(nodes[key].State(), f);
      hide Receive, Delivered, Fresh, Node.State, FragTree.Proper;
      var complete, data := Pass(key, f);
      if complete {
        r := Some(data);
        ghost var s := nodes[key].State();
        Remove(key);
        assert t[key := s] - {key} == t - {key};
      } else {
        r := None;
      }
    }

    /** IPFrag_tree_Update */
    method Update(key: Key, f: Fragment) returns (r: Option<seq<byte>>)
      requires Valid() && f.Fits()
      modifies this, nodes.Values, Data()
      ensures Valid() && (State(), r) == TreeUpdate(old(State()), key, f)
    {
      hide Receive, Delivered, Fresh, Node.State, TreeUpdate;
      var n := Find(key);
      FindIsHarmless(old(State()), key, f);
      r := Settle(key, f);
    }
  }

  lemma FindIsHarmless(t: map<Key, Buffer>, key: Key, f: Fragment)
    requires Usable(t) && f.Fits()
    ensures Usable(t[key := BufferOf(t, key)]) && TreeUpdate(t[key := BufferOf(t, key)], key, f) == TreeUpdate(t, key, f)
  {
    hide Receive, Delivered;
    var s := t[key := BufferOf(t, key)];
    assert s - {key} == t - {key};
    var b := Receive(BufferOf(t, key), f);
    assert s[key := b] == t[key := b];
  }

  // ---------------------------------------------------------------- datagrams do not disturb each other

  datatype Arrival = Arrival(key: Key, f: Fragment)

  ghost predicate AllFit(xs: seq<Arrival>) {
    forall i :: 0 <= i < |xs| ==> xs[i].f.Fits()
  }

  /** The tree after a run of arrivals. */
  ghost function TreeRun(xs: seq<Arrival>): (t: map<Key, Buffer>)
    requires AllFit(xs)
    ensures Usable(t)
  {
    if xs == [] then map[] else
    var x := xs[|xs| - 1];
    TreeUpdate(TreeRun(xs[..|xs| - 1]), x.key, x.f).0
  }

  /** The arrivals of one datagram. */
  ghost function Only(xs: seq<Arrival>, key: Key): (fs: seq<Fragment>)
  {
    if xs == [] then [] else
    var x := xs[|xs| - 1];
    Only(xs[..|xs| - 1], key) + (if x.key == key then [x.f] else [])
  }

  ghost function Frags(ps: seq<seq<byte>>, js: seq<nat>): (fs: seq<Fragment>)
    requires Numbers(ps, js)
    ensures |fs| == |js|
  {
    seq(|js|, i requires 0 <= i < |js| => Frag(ps, js[i]))
  }

  lemma LastOnly(xs: seq<Arrival>, key: Key, ps: seq<seq<byte>>, js: seq<nat>)
    requires xs != [] && xs[|xs| - 1].key == key && Numbers(ps, js) && Only(xs, key) == Frags(ps, js)
    ensures js != [] && Numbers(ps, js[..|js| - 1]) && Only(xs[..|xs| - 1], key) == Frags(ps, js[..|js| - 1])
    ensures xs[|xs| - 1].f == Frag(ps, js[|js| - 1])
  {
    var n := |xs| - 1;
    var fs := Only(xs[..n], key);
    assert Only(xs, key) == fs + [xs[n].f];
    hide Only, Frag;
    assert |js| == |fs| + 1;
    assert Frags(ps, js)[|js| - 1] == xs[n].f;
    assert forall i :: 0 <= i < |fs| ==> fs[i] == Frags(ps, js)[i];
  }

  lemma ArriveLast(ps: seq<seq<byte>>, js: seq<nat>)
    requires Datagram(ps) && Numbers(ps, js) && js != [] && Safe(ps, js)
    ensures Numbers(ps, js[..|js| - 1]) && Safe(ps, js[..|js| - 1]) && Frag(ps, js[|js| - 1]).Fits()
    ensures Arrive(ps, js) == Receive(Arrive(ps, js[..|js| - 1]), Frag(ps, js[|js| - 1]))
  {
    FragFits(ps, js[|js| - 1]);
    hide Datagram, Receive, Frag, Mishandles;
  }

  /** A datagram of which a piece is missing has a hole, and was not complete before its last arrival. */
  lemma IncompleteHasHole(ps: seq<seq<byte>>, js: seq<nat>)
    requires Datagram(ps) && Numbers(ps, js) && Safe(ps, js) && !AllCame(ps, js)
    ensures Arrive(ps, js).holes != [] && (js != [] ==> !AllCame(ps, js[..|js| - 1]))
  {
    hide Datagram, Numbers, Safe, Arrive;
    Reassembles(ps, js);
    if js != [] && AllCame(ps, js[..|js| - 1]) {
      forall j | 0 <= j < |ps| ensures j in js {
        assert j in js[..|js| - 1];
      }
    }
  }

  /** The fragments of one datagram among those of others: until all came, its buffer is what they alone make it. */
  lemma {:induction false} TreeKeepsApart(xs: seq<Arrival>, key: Key, ps: seq<seq<byte>>, js: seq<nat>)
    requires AllFit(xs) && Datagram(ps) && Numbers(ps, js) && Safe(ps, js)
    requires Only(xs, key) == Frags(ps, js) && !AllCame(ps, js)
    ensures BufferOf(TreeRun(xs), key) == Arrive(ps, js)
    decreases |xs|
  {
    hide Datagram, Safe, Receive, Frag, AllCame, Frags, Numbers;
    if xs == [] {
      assert js == [];
    } else {
      var n := |xs| - 1;
      if xs[n].key == key {
        LastOnly(xs, key, ps, js);
        ArriveLast(ps, js);
        IncompleteHasHole(ps, js);
        TreeKeepsApart(xs[..n], key, ps, js[..|js| - 1]);
      } else {
        TreeKeepsApart(xs[..n], key, ps, js);
      }
    }
  }

  /**
   Fragments of one datagram, in any order, with any repetitions, and among those of any other datagrams: as long as
   no wrong case is met, the call for the last of them delivers the original datagram if it makes them complete,
   and nothing before.
   */
  lemma TreeReassembles(xs: seq<Arrival>, key: Key, ps: seq<seq<byte>>, js: seq<nat>)
    requires AllFit(xs) && xs != [] && xs[|xs| - 1].key == key
    requires Datagram(ps) && Numbers(ps, js) && Safe(ps, js) && Only(xs, key) == Frags(ps, js)
    requires !AllCame(ps, js[..|js| - 1])
    ensures TreeUpdate(TreeRun(xs[..|xs| - 1]), key, xs[|xs| - 1].f).1
            == if AllCame(ps, js) then Some(Joined(ps, |ps|)) else None
  {
    hide Datagram, Safe, Receive, Frag, AllCame, Frags, Numbers, Only, TreeRun, Joined;
    LastOnly(xs, key, ps, js);
    ArriveLast(ps, js);
    TreeKeepsApart(xs[..|xs| - 1], key, ps, js[..|js| - 1]);
    Reassembles(ps, js);
  }

  // ---------------------------------------------------------------- many datagrams under one key

  /** The fragments of one datagram, as they come: no wrong case is met, and nothing comes after the last missing one. */
  datatype Sending = Sending(pieces: seq<seq<byte>>, order: seq<nat>)
  {
    ghost predicate Sound() {
      && Datagram(pieces) && Numbers(pieces, order) && Safe(pieces, order)
      && order != [] && !AllCame(pieces, order[..|order| - 1])
    }

    ghost predicate Done() {
      AllCame(pieces, order)
    }

    ghost function Fragments(): (fs: seq<Fragment>)
      requires Sound()
      ensures |fs| == |order|
    {
      Frags(pieces, order)
    }
  }

  /** Datagrams one after the other; all but the last are complete. */
  ghost predicate Chain(ss: seq<Sending>) {
    && (forall i :: 0 <= i < |ss| ==> ss[i].Sound())
    && forall i :: 0 <= i < |ss| - 1 ==> ss[i].Done()
  }

  ghost function Flow(ss: seq<Sending>): seq<Fragment>
    requires Chain(ss)
  {
    if ss == [] then [] else
    var m := |ss| - 1;
    ChainPrefix(ss);
    Flow(ss[..m]) + ss[m].Fragments()
  }

  lemma ChainPrefix(ss: seq<Sending>)
    requires Chain(ss) && ss != []
    ensures Chain(ss[..|ss| - 1]) && ss[|ss| - 1].Sound()
    ensures |ss| > 1 ==> ss[|ss| - 2].Sound() && ss[|ss| - 2].Done()
  {
    hide Sending.Sound, Sending.Done;
    assert ss[|ss| - 1].Sound();
  }

  /** What is kept under a key after these datagrams: the last one's buffer while it is not complete, else nothing. */
  ghost function Remains(ss: seq<Sending>): Buffer
    requires Chain(ss)
  {
    if ss == [] then Fresh() else
    ChainPrefix(ss);
    var s := ss[|ss| - 1];
    if s.Done() then Fresh() else Arrive(s.pieces, s.order)
  }

  /** The same datagrams without the last fragment. */
  ghost function Earlier(ss: seq<Sending>): seq<Sending>
    requires ss != []
  {
    var m, s := |ss| - 1, ss[|ss| - 1];
    if |s.order| <= 1 then ss[..m] else ss[..m] + [Sending(s.pieces, s.order[..|s.order| - 1])]
  }

  lemma ShorterIsSound(s: Sending)
    requires s.Sound() && 1 < |s.order|
    ensures var r := Sending(s.pieces, s.order[..|s.order| - 1]); r.Sound() && !r.Done()
  {
    hide Datagram, Safe;
    var n := |s.order| - 1;
    var r := s.order[..n];
    ArriveLast(s.pieces, s.order);
    if AllCame(s.pieces, r[..n - 1]) {
      forall j | 0 <= j < |s.pieces| ensures j in r {
        assert j in r[..n - 1];
      }
    }
  }

  lemma EarlierChain(ss: seq<Sending>)
    requires Chain(ss) && ss != []
    ensures Chain(Earlier(ss))
  {
    hide Sending.Sound, Sending.Done;
    ChainPrefix(ss);
    var s := ss[|ss| - 1];
    if 1 < |s.order| {
      ShorterIsSound(s);
    }
  }

  lemma FlowStep(ss: seq<Sending>)
    requires Chain(ss) && ss != []
    ensures var m := |ss| - 1; ss[m].Sound() && Chain(ss[..m]) && Flow(ss) == Flow(ss[..m]) + ss[m].Fragments()
  {
    hide Sending.Sound, Sending.Done, Sending.Fragments;
    ChainPrefix(ss);
  }

  lemma FragmentsStep(s: Sending)
    requires s.Sound()
    ensures var n := |s.order| - 1;
            && n >= 0 && s.order[n] < |s.pieces| && Numbers(s.pieces, s.order[..n])
            && s.Fragments() == Frags(s.pieces, s.order[..n]) + [Frag(s.pieces, s.order[n])]
  {
    hide Datagram, Safe, Frag, AllCame;
  }

  lemma EarlierFlow(ss: seq<Sending>)
    requires Chain(ss) && ss != []
    ensures Chain(Earlier(ss))
    ensures var s := ss[|ss| - 1];
            && s.Sound() && s.order[|s.order| - 1] < |s.pieces|
            && Flow(ss) == Flow(Earlier(ss)) + [Frag(s.pieces, s.order[|s.order| - 1])]
  {
    hide Sending.Sound, Sending.Done, Flow, Frag, Frags;
    var m, s := |ss| - 1, ss[|ss| - 1];
    EarlierChain(ss);
    FlowStep(ss);
    FragmentsStep(s);
    var n := |s.order| - 1;
    if n == 0 {
      FragsEmpty(s.pieces, s.order[..0]);
      assert Flow(ss[..m]) + ([] + [Frag(s.pieces, s.order[0])]) == Flow(ss[..m]) + [Frag(s.pieces, s.order[0])];
    } else {
      var es := Earlier(ss);
      assert es[..m] == ss[..m] && es[m] == Sending(s.pieces, s.order[..n]);
      FlowStep(es);
    }
  }

  lemma FragsEmpty(ps: seq<seq<byte>>, js: seq<nat>)
    requires js == []
    ensures Frags(ps, js) == []
  {}

  /** The fragment that comes last makes what is kept the last datagram's buffer. */
  lemma ReceivesLast(ss: seq<Sending>)
    requires Chain(ss) && ss != []
    ensures Chain(Earlier(ss))
    ensures var s := ss[|ss| - 1];
            && s.Sound() && s.order[|s.order| - 1] < |s.pieces|
            && Frag(s.pieces, s.order[|s.order| - 1]).Fits() && |Remains(Earlier(ss)).data| == MAXPACKET
            && Receive(Remains(Earlier(ss)), Frag(s.pieces, s.order[|s.order| - 1])) == Arrive(s.pieces, s.order)
  {
    hide Datagram, Safe, Receive, Frag, AllCame, Fragment.Fits;
    var m, s := |ss| - 1, ss[|ss| - 1];
    EarlierChain(ss);
    ChainPrefix(ss);
    ArriveLast(s.pieces, s.order);
    var n := |s.order| - 1;
    if n == 0 {
      assert Earlier(ss) == ss[..m];
      assert s.order[..0] == [];
      if 0 < m {
        assert ss[..m][m - 1] == ss[m - 1];
      }
    } else {
      ShorterIsSound(s);
    }
  }

  /** Under a key that is used again and again, among arrivals for any others, only the datagram under way is kept. */
  lemma {:induction false} KeyReused(xs: seq<Arrival>, key: Key, ss: seq<Sending>)
    requires AllFit(xs) && Chain(ss) && Only(xs, key) == Flow(ss)
    ensures BufferOf(TreeRun(xs), key) == Remains(ss)
    decreases |xs|
  {
    hide Chain, Flow, Remains, Receive, Frag, Earlier, Fresh, Delivered;
    if xs == [] {
      NoFlow(ss);
    } else {
      var n := |xs| - 1;
      if xs[n].key == key {
        FlowNotEmpty(xs, key, ss);
        EarlierFlow(ss);
        var s := ss[|ss| - 1];
        SnocSame(Only(xs[..n], key), xs[n].f, Flow(Earlier(ss)), Frag(s.pieces, s.order[|s.order| - 1]));
        KeyReused(xs[..n], key, Earlier(ss));
        ReceivesLast(ss);
        LastDecides(ss);
      } else {
        KeyReused(xs[..n], key, ss);
      }
    }
  }

  lemma SnocSame(a: seq<Fragment>, x: Fragment, b: seq<Fragment>, y: Fragment)
    requires a + [x] == b + [y]
    ensures a == b && x == y
  {
    assert (a + [x])[|a|] == x && (b + [y])[|b|] == y;
    assert (a + [x])[..|a|] == a && (b + [y])[..|b|] == b;
  }

  lemma NoFlow(ss: seq<Sending>)
    requires Chain(ss) && Flow(ss) == []
    ensures ss == [] && Remains(ss) == Fresh()
  {
    hide Sending.Done, Sending.Fragments;
    if ss != [] {
      FlowStep(ss);
      FragmentsStep(ss[|ss| - 1]);
    }
  }

  lemma FlowNotEmpty(xs: seq<Arrival>, key: Key, ss: seq<Sending>)
    requires Chain(ss) && Only(xs, key) == Flow(ss) && xs != [] && xs[|xs| - 1].key == key
    ensures ss != []
  {}

  /** The buffer of the last datagram has a hole just while it is not complete. */
  lemma LastDecides(ss: seq<Sending>)
    requires Chain(ss) && ss != []
    ensures var s := ss[|ss| - 1];
            && s.Sound()
            && var b := Arrive(s.pieces, s.order);
               && b.size < |b.data|
               && Delivered(b) == (if s.Done() then Some(Joined(s.pieces, |s.pieces|)) else None)
               && (b.holes == [] <==> s.Done())
               && Remains(ss) == if s.Done() then Fresh() else b
  {
    hide Datagram, Safe, Receive, Frag, AllCame, Arrive, Joined, Fresh;
    ChainPrefix(ss);
    var s := ss[|ss| - 1];
    Reassembles(s.pieces, s.order);
  }

  /**
   Datagrams one after the other under one key, in any order of their fragments, with repetitions, and among arrivals
   for any other keys: the call that makes one complete returns it, and every other call returns nothing.
   */
  lemma EachDelivered(xs: seq<Arrival>, key: Key, ss: seq<Sending>)
    requires AllFit(xs) && Chain(ss) && Only(xs, key) == Flow(ss) && xs != [] && xs[|xs| - 1].key == key
    ensures ss != []
    ensures var s, x := ss[|ss| - 1], xs[|xs| - 1];
            TreeUpdate(TreeRun(xs[..|xs| - 1]), key, x.f).1
            == if s.Done() then Some(Joined(s.pieces, |s.pieces|)) else None
  {
    hide Chain, Flow, Remains, Receive, Frag, Earlier, Fresh, Delivered, Joined, Sending.Done;
    var n := |xs| - 1;
    FlowNotEmpty(xs, key, ss);
    EarlierFlow(ss);
    var s := ss[|ss| - 1];
    SnocSame(Only(xs[..n], key), xs[n].f, Flow(Earlier(ss)), Frag(s.pieces, s.order[|s.order| - 1]));
    KeyReused(xs[..n], key, Earlier(ss));
    ReceivesLast(ss);
    LastDecides(ss);
  }
}
