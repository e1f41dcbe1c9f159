/**
 Expiry of flow files: `ExpireProfile` over several channels, `ExpireDir` over one. Directory
 walks are abstracted to the sequences of capture files they yield, and deletions succeed.
 Sizes are 64-bit unsigned, and so is the arithmetic on them.
 */
module Expire {
  import opened Bytes
  import opened Names

  /** A capture file: the time stamp in its name, and its size in disk blocks. */
  datatype File = File(stamp: string, blocks: nat)

  /** A file together with the number of the channel it belongs to. */
  datatype Victim = Victim(channel: nat, file: File)

  // ---------------------------------------------------------------- which file goes first

  /** The remaining files of every channel, oldest first. */
  type Lists = seq<seq<File>>

  /** The search loop from candidate `cur`, comparing with channel `j` next. */
  function PickFrom(h: Lists, cur: nat, j: nat): (r: nat)
    requires cur < j <= |h|
    ensures r < |h|
    decreases |h| - j
  {
    if j == |h| then cur
    else
      var cur' := if h[cur] == [] then j else cur;
      if h[j] == [] then PickFrom(h, cur', j + 1)
      else if !Less(h[cur'][0].stamp, h[j][0].stamp) then PickFrom(h, j, j + 1)
      else PickFrom(h, cur', j + 1)
  }

  /** The channel whose next file is removed, if any channel has one. */
  function Pick(h: Lists): (r: nat)
    requires h != []
    ensures r < |h|
  {
    PickFrom(h, 0, 1)
  }

  function Total(h: Lists): nat {
    if h == [] then 0 else |h[0]| + Total(h[1..])
  }

  lemma {:induction false} TotalAt(h: Lists, i: nat)
    requires i < |h| && h[i] != []
    ensures Total(h[i := h[i][1..]]) == Total(h) - 1
  {
    var g := h[i := h[i][1..]];
    if i == 0 {
      assert g[1..] == h[1..];
    } else {
      assert g[1..] == h[1..][i - 1 := h[1..][i - 1][1..]];
      TotalAt(h[1..], i - 1);
    }
  }

  /** All files in the order in which `ExpireProfile` would remove them. */
  function Merge(h: Lists): seq<Victim>
    requires h != []
    decreases Total(h)
  {
    var i := Pick(h);
    if h[i] == [] then []
    else
      TotalAt(h, i);
      [Victim(i, h[i][0])] + Merge(h[i := h[i][1..]])
  }

  // ---------------------------------------------------------------- how many files go

  /** `filesize -= 512 * st_blocks` */
  function Shrink(filesize: nat, f: File): nat {
    (filesize - 512 * f.blocks) % U64
  }

  /** Number of removals while the total is over the limit. */
  function SizePhase(m: seq<Victim>, filesize: nat, limit: nat): (k: nat)
    ensures k <= |m|
  {
    if m == [] || filesize <= limit then 0 else 1 + SizePhase(m[1..], Shrink(filesize, m[0].file), limit)
  }

  /** Number of removals while the next name lies before the time limit. */
  function TimePhase(m: seq<Victim>, limit: string): (k: nat)
    ensures k <= |m|
  {
    if m == [] || !Less(m[0].file.stamp, limit) then 0 else 1 + TimePhase(m[1..], limit)
  }

  /** The limits a run works with. */
  datatype Limits = Limits(maxsize: nat, lowWater: nat, maxlife: nat, age: int, timelimit: string)
  {
    /** (low_water * maxsize) / 100 in 64 bits */
    function SizeLimit(): nat {
      lowWater * maxsize % U64 / 100
    }

    predicate SizeDone(filesize: nat) {
      maxsize == 0 || filesize < maxsize
    }

    /** `age` is now minus the time of the oldest file, compared as unsigned. */
    predicate LifetimeDone() {
      maxlife == 0 || age % U64 < maxlife
    }
  }

  /** How many of the files `m`, in removal order, are removed. */
  function Expired(m: seq<Victim>, filesize: nat, sizeDone: bool, timeDone: bool, lim: Limits): (k: nat)
    ensures k <= |m|
  {
    var k := if sizeDone then 0 else SizePhase(m, filesize, lim.SizeLimit());
    k + (if timeDone then 0 else TimePhase(m[k..], lim.timelimit))
  }

  // ---------------------------------------------------------------- the code

  class DirStat {
    var filesize: nat
    var numfiles: nat
    var rebuild: bool

    constructor (filesize: nat, numfiles: nat)
      ensures this.filesize == filesize && this.numfiles == numfiles && !rebuild
    {
      this.filesize, this.numfiles, this.rebuild := filesize, numfiles, false;
    }

    method Remove(f: File)
      modifies this
      ensures filesize == Shrink(old(filesize), f) && numfiles == (old(numfiles) - 1) % U64 && rebuild == old(rebuild)
    {
      filesize := Shrink(filesize, f);
      numfiles := (numfiles - 1) % U64;
    }
  }

  class Channel {
    var files: seq<File>
    const dirstat: DirStat

    constructor (files: seq<File>, dirstat: DirStat)
      ensures this.files == files && this.dirstat == dirstat
    {
      this.files, this.dirstat := files, dirstat;
    }
  }

  /** Channels and statistics records are different objects. */
  ghost predicate Separate(cs: seq<Channel>, stat: DirStat)
  {
    && (forall i, j :: 0 <= i < j < |cs| ==> cs[i] != cs[j] && cs[i].dirstat != cs[j].dirstat)
    && (forall i :: 0 <= i < |cs| ==> cs[i].dirstat != stat)
  }

  ghost function FileLists(cs: seq<Channel>): (h: Lists)
    reads cs
    ensures |h| == |cs|
  {
    seq(|cs|, i requires 0 <= i < |cs| reads cs => cs[i].files)
  }

  /** The search for the channel with the oldest file. */
  method FindOldest(cs: seq<Channel>) returns (r: nat)
    requires cs != []
    ensures r == Pick(FileLists(cs))
  {
    ghost var h := FileLists(cs);
    r := 0;
    var j := 1;
    while j < |cs|
      invariant r < j <= |cs| && PickFrom(h, r, j) == Pick(h)
    {
      if cs[r].files == [] {
        r := j;
      }
      if cs[j].files != [] {
        if !Less(cs[r].files[0].stamp, cs[j].files[0].stamp) {
          r := j;
        }
      }
      j := j + 1;
    }
  }

  /** The files of channel `i` among `m`, in order. */
  function Own(m: seq<Victim>, i: nat): seq<File>
    decreases |m|
  {
    if m == [] then []
    else
      var v := m[|m| - 1];
      Own(m[..|m| - 1], i) + (if v.channel == i then [v.file] else [])
  }

  /** Bytes on disk of a list of files. */
  function DiskSize(fs: seq<File>): nat
    decreases |fs|
  {
    if fs == [] then 0 else DiskSize(fs[..|fs| - 1]) + 512 * fs[|fs| - 1].blocks
  }

  function Files(m: seq<Victim>): (fs: seq<File>)
    ensures |fs| == |m|
  {
    seq(|m|, i requires 0 <= i < |m| => m[i].file)
  }

  lemma SnocStat(m: seq<Victim>, v: Victim, i: nat)
    ensures Own(m + [v], i) == Own(m, i) + (if v.channel == i then [v.file] else [])
    ensures Files(m + [v]) == Files(m) + [v.file]
  {
    assert (m + [v])[..|m + [v]| - 1] == m;
  }

  lemma DiskSizeSnoc(fs: seq<File>, f: File)
    ensures DiskSize(fs + [f]) == DiskSize(fs) + 512 * f.blocks
  {
    assert (fs + [f])[..|fs + [f]| - 1] == fs;
  }

  lemma ShrinkMore(filesize0: nat, fs: seq<File>, f: File)
    ensures Shrink((filesize0 - DiskSize(fs)) % U64, f) == (filesize0 - DiskSize(fs + [f])) % U64
  {
    DiskSizeSnoc(fs, f);
    Wrap64(filesize0 - DiskSize(fs), -512 * f.blocks);
  }

  // ---------------------------------------------------------------- channels

  /** A channel before the run: its files and its statistics. */
  datatype Origin = Origin(files: seq<File>, filesize: nat, numfiles: nat, rebuild: bool)

  ghost function Origins(cs: seq<Channel>): (o: seq<Origin>)
    reads cs, set c | c in cs :: c.dirstat
    ensures |o| == |cs|
    ensures forall i :: 0 <= i < |cs| ==>
              o[i] == Origin(cs[i].files, cs[i].dirstat.filesize, cs[i].dirstat.numfiles, cs[i].dirstat.rebuild)
  {
    seq(|cs|, i requires 0 <= i < |cs| reads cs, set c | c in cs :: c.dirstat =>
      Origin(cs[i].files, cs[i].dirstat.filesize, cs[i].dirstat.numfiles, cs[i].dirstat.rebuild))
  }

  /**
   A channel after the files `fs` have gone from its front: sizes and counts have followed,
   and if it ran empty it is marked for rebuild with no files.
   */
  ghost predicate ChannelOk(c: Channel, o: Origin, fs: seq<File>)
    reads c, c.dirstat
  {
    var d := c.dirstat;
    && o.files == fs + c.files
    && d.filesize == (o.filesize - DiskSize(fs)) % U64
    && (if fs != [] && c.files == [] then d.numfiles == 0 && d.rebuild
        else d.numfiles == (o.numfiles - |fs|) % U64 && d.rebuild == o.rebuild)
  }

  ghost predicate ChannelsOk(cs: seq<Channel>, os: seq<Origin>, gone: seq<Victim>)
    reads cs, set c | c in cs :: c.dirstat
  {
    |os| == |cs| && forall i :: 0 <= i < |cs| ==> ChannelOk(cs[i], os[i], Own(gone, i))
  }

  /** Files, size and count of a channel when one more file has gone. */
  lemma OneMoreGone(o: Origin, gone: seq<File>, f: File, rest: seq<File>, size: nat, num: nat)
    requires o.files == gone + ([f] + rest) && size == (o.filesize - DiskSize(gone)) % U64
    requires num == (o.numfiles - |gone|) % U64
    ensures o.files == (gone + [f]) + rest && Shrink(size, f) == (o.filesize - DiskSize(gone + [f])) % U64
    ensures (num - 1) % U64 == (o.numfiles - |gone + [f]|) % U64
  {
    hide Shrink, DiskSize;
    ShrinkMore(o.filesize, gone, f);
    Wrap64(o.numfiles - |gone|, -1);
  }

  /** Deletes the next file of channel `r`: statistics of profile and channel, then the next file. */
  method Unlink(cs: seq<Channel>, r: nat, stat: DirStat, ghost os: seq<Origin>, ghost gone: seq<Victim>) returns (f: File)
    requires Separate(cs, stat) && r < |cs| && cs[r].files != [] && ChannelsOk(cs, os, gone)
    modifies cs[r], cs[r].dirstat, stat
    ensures f == old(cs[r].files[0])
    ensures FileLists(cs) == old(FileLists(cs)[r := cs[r].files[1..]])
    ensures stat.filesize == Shrink(old(stat.filesize), f) && stat.numfiles == (old(stat.numfiles) - 1) % U64
    ensures stat.rebuild == old(stat.rebuild)
    ensures ChannelsOk(cs, os, gone + [Victim(r, f)])
  {
    hide Own, Shrink, DiskSize;
    var c := cs[r];
    f := c.files[0];
    ghost var v := Victim(r, f);
    assert ChannelOk(c, os[r], Own(gone, r));
    assert c.files == [f] + c.files[1..];
    stat.Remove(f);
    c.dirstat.Remove(f);
    c.files := c.files[1..];
    if c.files == [] {
      c.dirstat.numfiles := 0;
      c.dirstat.rebuild := true;
    }
    OneMoreGone(os[r], Own(gone, r), f, c.files, old(cs[r].dirstat.filesize), old(cs[r].dirstat.numfiles));
    forall i | 0 <= i < |cs| ensures ChannelOk(cs[i], os[i], Own(gone + [v], i)) {
      SnocStat(gone, v, i);
      assert old(ChannelOk(cs[i], os[i], Own(gone, i)));
      if i != r {
        assert Own(gone, i) + [] == Own(gone, i);
      }
    }
  }

  // ---------------------------------------------------------------- runs

  /** A run of ExpireProfile at the head of its loop. */
  datatype Run = Run(lists: Lists, gone: seq<Victim>, filesize: nat, sizeDone: bool, timeDone: bool)

  ghost function Left(r: Run, lim: Limits): nat
    requires r.lists != []
  {
    Expired(Merge(r.lists), r.filesize, r.sizeDone, r.timeDone, lim)
  }

  /** From `r0` the run has come to `r`, and what is still to be removed is what the limits ask for. */
  ghost predicate Reached(r0: Run, r: Run, lim: Limits)
  {
    && |r.lists| == |r0.lists| > 0 && Merge(r0.lists) == r.gone + Merge(r.lists)
    && r.filesize == (r0.filesize - DiskSize(Files(r.gone))) % U64
    && Left(r0, lim) == |r.gone| + Left(r, lim)
  }

  lemma MergeStep(h: Lists)
    requires h != [] && h[Pick(h)] != []
    ensures var r := Pick(h);
            && Total(h[r := h[r][1..]]) < Total(h)
            && Merge(h) == [Victim(r, h[r][0])] + Merge(h[r := h[r][1..]])
  {
    TotalAt(h, Pick(h));
  }

  /** What the limits ask for, one removal at a time. */
  lemma ExpiredStep(m: seq<Victim>, f: nat, sd: bool, td: bool, lim: Limits)
    ensures m == [] || (sd && td) ==> Expired(m, f, sd, td, lim) == 0
    ensures !sd && f <= lim.SizeLimit() ==> Expired(m, f, sd, td, lim) == Expired(m, f, true, td, lim)
    ensures m != [] && !sd && f > lim.SizeLimit() ==>
              Expired(m, f, sd, td, lim) == 1 + Expired(m[1..], Shrink(f, m[0].file), sd, td, lim)
    ensures m != [] && sd && !td && Less(m[0].file.stamp, lim.timelimit) ==>
              Expired(m, f, sd, td, lim) == 1 + Expired(m[1..], Shrink(f, m[0].file), sd, td, lim)
    ensures m != [] && sd && !Less(m[0].file.stamp, lim.timelimit) ==>
              Expired(m, f, sd, td, lim) == Expired(m, f, sd, true, lim)
  {
    if m != [] && !sd && f > lim.SizeLimit() {
      var k := SizePhase(m[1..], Shrink(f, m[0].file), lim.SizeLimit());
      assert m[1 + k..] == m[1..][k..];
    }
  }

  /** Does the loop remove the next file? */
  predicate Removes(r: Run, lim: Limits)
    requires r.lists != [] && r.lists[Pick(r.lists)] != []
  {
    if !r.sizeDone then r.filesize > lim.SizeLimit()
    else !r.timeDone && Less(r.lists[Pick(r.lists)][0].stamp, lim.timelimit)
  }

  function AfterRemoval(r: Run): Run
    requires r.lists != [] && r.lists[Pick(r.lists)] != []
  {
    var i := Pick(r.lists);
    var f := r.lists[i][0];
    r.(lists := r.lists[i := r.lists[i][1..]], gone := r.gone + [Victim(i, f)], filesize := Shrink(r.filesize, f))
  }

  /** A removal keeps the run on the track of Merge and Expired. */
  lemma RunRemoves(r0: Run, r: Run, lim: Limits)
    requires Reached(r0, r, lim) && r.lists[Pick(r.lists)] != [] && Removes(r, lim)
    ensures Reached(r0, AfterRemoval(r), lim) && Total(AfterRemoval(r).lists) < Total(r.lists)
  {
    hide Expired, Pick, Less, Merge, Total, DiskSize, Own, Files, Shrink;
    var i := Pick(r.lists);
    var v := Victim(i, r.lists[i][0]);
    var rest := AfterRemoval(r).lists;
    MergeStep(r.lists);
    ExpiredStep(Merge(r.lists), r.filesize, r.sizeDone, r.timeDone, lim);
    assert ([v] + Merge(rest))[1..] == Merge(rest);
    assert r.gone + ([v] + Merge(rest)) == (r.gone + [v]) + Merge(rest);
    SnocStat(r.gone, v, i);
    ShrinkMore(r0.filesize, Files(r.gone), v.file);
  }

  /** When nothing is to be removed a flag goes up, or the run is over. */
  lemma RunKeeps(r0: Run, r: Run, lim: Limits)
    requires Reached(r0, r, lim) && r.lists[Pick(r.lists)] != [] && !Removes(r, lim)
    ensures Reached(r0, AfterKeeping(r), lim)
  {
    hide Expired, Pick, Less, Total, DiskSize, Own, Files, Shrink;
    MergeStep(r.lists);
    ExpiredStep(Merge(r.lists), r.filesize, r.sizeDone, r.timeDone, lim);
  }

  /** A turn of the loop that removes nothing. */
  function AfterKeeping(r: Run): Run {
    if !r.sizeDone then r.(sizeDone := true) else r.(timeDone := true)
  }

  /** The two limit tests of the loop on the oldest file. */
  method Decide(filesize: nat, stamp: string, lim: Limits, sizeDone0: bool, timeDone0: bool)
    returns (remove: bool, sizeDone: bool, timeDone: bool, done: bool)
    ensures remove == if !sizeDone0 then filesize > lim.SizeLimit() else !timeDone0 && Less(stamp, lim.timelimit)
    ensures sizeDone == (sizeDone0 || !remove) && timeDone == (timeDone0 || (sizeDone0 && !remove))
    ensures done == (sizeDone0 && timeDone0)
  {
    remove, sizeDone, timeDone, done := false, sizeDone0, timeDone0, false;
    if !sizeDone {
      if filesize > lim.SizeLimit() {
        remove := true;
      } else {
        sizeDone := true;
      }
    } else if !timeDone {
      if Less(stamp, lim.timelimit) {
        remove := true;
      } else {
        timeDone := true;
      }
    } else {
      done := true;
    }
  }

  lemma RunStarts(r: Run, lim: Limits)
    requires r.lists != [] && r.filesize < U64 && r.gone == []
    ensures Reached(r, r, lim)
  {
  }

  lemma RunEnds(r0: Run, r: Run, lim: Limits)
    requires Reached(r0, r, lim) && ((r.sizeDone && r.timeDone) || r.lists[Pick(r.lists)] == [])
    ensures |r.gone| == Left(r0, lim) && r.gone == Merge(r0.lists)[..|r.gone|]
  {
    ExpiredStep(Merge(r.lists), r.filesize, r.sizeDone, r.timeDone, lim);
  }

  /** The turn of the loop that deletes a file. */
  method RemoveOldest(cs: seq<Channel>, i: nat, stat: DirStat, gone0: seq<Victim>, lim: Limits, ghost os: seq<Origin>,
                      ghost r0: Run, ghost r: Run, ghost numfiles: nat)
    returns (gone: seq<Victim>)
    requires Separate(cs, stat) && i < |cs| && cs[i].files != [] && ChannelsOk(cs, os, gone0) && Reached(r0, r, lim)
    requires r.lists == FileLists(cs) && r.gone == gone0 && r.filesize == stat.filesize
    requires i == Pick(r.lists) && r.lists[i] != [] && Removes(r, lim) && stat.numfiles == Fewer(numfiles, |gone0|)
    modifies cs[i], cs[i].dirstat, stat
    ensures Reached(r0, AfterRemoval(r), lim) && Total(AfterRemoval(r).lists) < Total(r.lists) && ChannelsOk(cs, os, gone)
    ensures AfterRemoval(r) == r.(lists := FileLists(cs), gone := gone, filesize := stat.filesize)
    ensures stat.numfiles == Fewer(numfiles, |gone|)
  {
    hide Pick, Total, Reached, Shrink, ChannelsOk, Removes, Fewer, Separate;
    RunRemoves(r0, r, lim);
    OneLess(numfiles, |gone0|, stat.numfiles);
    var f := Unlink(cs, i, stat, os, gone0);
    gone := gone0 + [Victim(i, f)];
  }

  /**
   ExpireProfile. The files removed are the first so many in merge order as the limits ask
   for; every channel loses its own share, and the statistics follow.
   */
  method ExpireProfile(cs: seq<Channel>, stat: DirStat, lim: Limits) returns (gone: seq<Victim>)
    requires cs != [] && Separate(cs, stat) && stat.filesize < U64 && stat.numfiles < U64
    requires forall i :: 0 <= i < |cs| ==> cs[i].dirstat.filesize < U64 && cs[i].dirstat.numfiles < U64
    modifies cs, set c | c in cs :: c.dirstat, stat
    ensures var h := old(FileLists(cs));
            var k := Expired(Merge(h), old(stat.filesize), lim.SizeDone(old(stat.filesize)), lim.LifetimeDone(), lim);
            gone == Merge(h)[..k]
    ensures stat.filesize == (old(stat.filesize) - DiskSize(Files(gone))) % U64
    ensures stat.numfiles == Fewer(old(stat.numfiles), |gone|)
    ensures ChannelsOk(cs, old(Origins(cs)), gone)
    ensures var m := Merge(old(FileLists(cs)));
            NoWrap(m, old(stat.filesize), lim) ==> Asked(m, old(stat.filesize), lim, |gone|)
  {
    hide Merge, Pick, NoWrap, Asked, DiskSize, Expired, Files, Total, Own, Reached, Left, Less, Shrink, ChannelsOk, FileLists, Separate, Removes, Fewer;
    gone := [];
    var done := false;
    var sizeDone := lim.SizeDone(stat.filesize);
    var timeDone := lim.LifetimeDone();
    ghost var os := Origins(cs);
    ghost var r := Run(FileLists(cs), gone, stat.filesize, sizeDone, timeDone);
    ghost var r0 := r;
    RunStarts(r0, lim);
    NothingGone(cs, stat);
    assert stat.numfiles == Fewer(stat.numfiles, 0) by { NoneFewer(stat.numfiles); }
    while !done
      invariant |r.lists| == |cs| && r == Run(FileLists(cs), gone, stat.filesize, sizeDone, timeDone)
      invariant Reached(r0, r, lim) && ChannelsOk(cs, os, gone)
      invariant stat.numfiles == Fewer(old(stat.numfiles), |gone|)
      invariant done ==> (sizeDone && timeDone) || r.lists[Pick(r.lists)] == []
      decreases Total(r.lists), !done, !sizeDone, !timeDone
    {
      var i := FindOldest(cs);
      TurnFacts(cs, r, i, lim);
      if cs[i].files == [] {
        done := true;
        continue;
      }
      var remove;
      remove, sizeDone, timeDone, done := Decide(stat.filesize, cs[i].files[0].stamp, lim, sizeDone, timeDone);
      if remove {
        gone := RemoveOldest(cs, i, stat, gone, lim, os, r0, r, old(stat.numfiles));
        r := AfterRemoval(r);
      } else {
        RunKeeps(r0, r, lim);
        r := AfterKeeping(r);
      }
    }
    RunEnds(r0, r, lim);
    FilesizeReached(r0, r, lim);
    if NoWrap(Merge(r0.lists), r0.filesize, lim) {
      ExpiredAsAsked(Merge(r0.lists), r0.filesize, lim);
    }
  }

  /** A 64-bit count of files after `k` of them have gone. */
  function Fewer(n: nat, k: nat): nat {
    (n - k) % U64
  }

  lemma NoneFewer(n: nat)
    requires n < U64
    ensures Fewer(n, 0) == n
  {}

  lemma OneLess(n: nat, k: nat, left: nat)
    requires left == Fewer(n, k)
    ensures (left - 1) % U64 == Fewer(n, k + 1)
  {
    Wrap64(n - k, -1);
  }

  lemma TurnFacts(cs: seq<Channel>, r: Run, i: nat, lim: Limits)
    requires i < |cs| && r.lists == FileLists(cs)
    ensures r.lists[i] == cs[i].files
    ensures i == Pick(r.lists) && cs[i].files != [] ==>
              (Removes(r, lim) <==> if !r.sizeDone then r.filesize > lim.SizeLimit()
                                    else !r.timeDone && Less(cs[i].files[0].stamp, lim.timelimit))
  {
  }

  lemma FilesizeReached(r0: Run, r: Run, lim: Limits)
    requires Reached(r0, r, lim)
    ensures r.filesize == (r0.filesize - DiskSize(Files(r.gone))) % U64
    ensures Left(r0, lim) == Expired(Merge(r0.lists), r0.filesize, r0.sizeDone, r0.timeDone, lim)
  {
  }

  lemma NothingGone(cs: seq<Channel>, stat: DirStat)
    requires forall i :: 0 <= i < |cs| ==> cs[i].dirstat.filesize < U64 && cs[i].dirstat.numfiles < U64
    ensures ChannelsOk(cs, Origins(cs), [])
  {
  }

  // ---------------------------------------------------------------- what it means

  /**
   Removing by size stops at the first point where the 64-bit total is at or below the
   low-water limit, so it removes the fewest files that get there, or all of them.
   */
  lemma {:induction false} SizePhaseFewest(m: seq<Victim>, filesize: nat, limit: nat)
    requires filesize < U64
    ensures var k := SizePhase(m, filesize, limit);
            && (forall j :: 0 <= j < k ==> (filesize - DiskSize(Files(m[..j]))) % U64 > limit)
            && (k < |m| ==> (filesize - DiskSize(Files(m[..k]))) % U64 <= limit)
    decreases |m|
  {
    hide DiskSize, Files, Shrink;
    var k := SizePhase(m, filesize, limit);
    NothingShrinks(m, filesize);
    if m != [] && filesize > limit {
      var f1 := Shrink(filesize, m[0].file);
      ShrinkBounded(filesize, m[0].file);
      SizePhaseFewest(m[1..], f1, limit);
      forall j | 0 < j <= |m|
        ensures (filesize - DiskSize(Files(m[..j]))) % U64 == (f1 - DiskSize(Files(m[1..][..j - 1]))) % U64
      {
        SizeAfterFirst(m, filesize, j);
      }
    }
  }

  lemma NothingShrinks(m: seq<Victim>, filesize: nat)
    requires filesize < U64
    ensures (filesize - DiskSize(Files(m[..0]))) % U64 == filesize
  {
    assert Files(m[..0]) == [];
  }

  lemma ShrinkBounded(filesize: nat, f: File)
    ensures Shrink(filesize, f) < U64
  {
  }

  lemma SizeAfterFirst(m: seq<Victim>, filesize: nat, j: nat)
    requires 0 < j <= |m|
    ensures (filesize - DiskSize(Files(m[..j]))) % U64
            == (Shrink(filesize, m[0].file) - DiskSize(Files(m[1..][..j - 1]))) % U64
  {
    hide DiskSize;
    var rest := Files(m[1..][..j - 1]);
    assert Files(m[..j]) == [m[0].file] + rest;
    DiskSizeCons(m[0].file, rest);
    Wrap64(filesize - 512 * m[0].file.blocks, 0 - DiskSize(rest));
  }

  lemma {:induction false} DiskSizeCons(f: File, fs: seq<File>)
    ensures DiskSize([f] + fs) == 512 * f.blocks + DiskSize(fs)
    decreases |fs|
  {
    if fs == [] {
      assert [f] + fs == [f];
      assert [f][..0] == [];
    } else {
      var n := |fs| - 1;
      assert ([f] + fs)[..n + 1] == [f] + fs[..n];
      DiskSizeCons(f, fs[..n]);
    }
  }

  /** Names never decrease along the list. */
  predicate Sorted(fs: seq<File>) {
    forall i, j :: 0 <= i < j < |fs| ==> !Less(fs[j].stamp, fs[i].stamp)
  }

  /** Removing by time takes exactly the files named before the limit. */
  lemma {:induction false} TimePhaseExact(m: seq<Victim>, limit: string, j: nat)
    requires Sorted(Files(m)) && j < |m|
    ensures j < TimePhase(m, limit) <==> Less(m[j].file.stamp, limit)
    decreases |m|
  {
    var fs := Files(m);
    if j > 0 {
      assert !Less(fs[j].stamp, fs[0].stamp);
      if Less(m[0].file.stamp, limit) {
        assert Files(m[1..]) == fs[1..];
        TimePhaseExact(m[1..], limit, j - 1);
      } else {
        LessTransitive(limit, m[0].file.stamp, m[j].file.stamp);
      }
    }
  }

  /** The choice among the channels seen so far: none has an older file, and among equals the last counts. */
  predicate Chosen(h: Lists, r: nat, n: nat)
    requires r < n <= |h|
  {
    && (h[r] == [] ==> forall i :: 0 <= i < n ==> h[i] == [])
    && (h[r] != [] ==> forall i :: 0 <= i < n && h[i] != [] ==>
          !Less(h[i][0].stamp, h[r][0].stamp) && (i > r ==> Less(h[r][0].stamp, h[i][0].stamp)))
  }

  lemma {:induction false} PickFromChosen(h: Lists, cur: nat, j: nat)
    requires cur < j <= |h| && Chosen(h, cur, j)
    ensures Chosen(h, PickFrom(h, cur, j), |h|)
    decreases |h| - j
  {
    if j < |h| {
      var cur' := if h[cur] == [] then j else cur;
      if h[j] == [] {
        PickFromChosen(h, cur', j + 1);
      } else if !Less(h[cur'][0].stamp, h[j][0].stamp) {
        forall i | 0 <= i < j + 1 && h[i] != [] ensures !Less(h[i][0].stamp, h[j][0].stamp) {
          LessTotal(h[i][0].stamp, h[j][0].stamp);
          if i < j && cur' == cur {
            LessTransitive(h[j][0].stamp, h[cur][0].stamp, h[i][0].stamp);
          }
        }
        PickFromChosen(h, j, j + 1);
      } else {
        LessTotal(h[cur'][0].stamp, h[j][0].stamp);
        PickFromChosen(h, cur', j + 1);
      }
    }
  }

  /** The loop picks a channel whose next file is the oldest of all, the last of them on a tie. */
  lemma PickIsOldest(h: Lists)
    requires h != []
    ensures Chosen(h, Pick(h), |h|)
  {
    if h[0] != [] {
      LessTotal(h[0][0].stamp, h[0][0].stamp);
    }
    PickFromChosen(h, 0, 1);
  }

  lemma {:induction false} OwnCons(v: Victim, m: seq<Victim>, i: nat)
    ensures Own([v] + m, i) == (if v.channel == i then [v.file] else []) + Own(m, i)
    decreases |m|
  {
    if m == [] {
      assert [v] + m == [v];
      assert [v][..0] == [];
    } else {
      var n := |m| - 1;
      assert ([v] + m)[..n + 1] == [v] + m[..n];
      OwnCons(v, m[..n], i);
    }
  }

  /** The removal order is an interleaving of the channels: each contributes all its files, in their order. */
  lemma {:induction false} MergeInterleaves(h: Lists, i: nat)
    requires i < |h|
    ensures Own(Merge(h), i) == h[i]
    decreases Total(h)
  {
    var r := Pick(h);
    if h[r] == [] {
      PickIsOldest(h);
    } else {
      MergeStep(h);
      var g := h[r := h[r][1..]];
      MergeInterleaves(g, i);
      OwnCons(Victim(r, h[r][0]), Merge(g), i);
    }
  }

  lemma {:induction false} MergeMembers(h: Lists, k: nat)
    requires h != [] && k < |Merge(h)|
    ensures Merge(h)[k].channel < |h| && Merge(h)[k].file in h[Merge(h)[k].channel]
    decreases Total(h)
  {
    var r := Pick(h);
    MergeStep(h);
    if k > 0 {
      MergeMembers(h[r := h[r][1..]], k - 1);
    }
  }

  /** If every channel's names increase, files are removed in order of their names across all channels. */
  lemma {:induction false} MergeSorted(h: Lists)
    requires h != [] && forall i :: 0 <= i < |h| ==> Sorted(h[i])
    ensures Sorted(Files(Merge(h)))
    decreases Total(h)
  {
    var r := Pick(h);
    if h[r] != [] {
      MergeStep(h);
      var g := h[r := h[r][1..]];
      assert forall i :: 0 <= i < |g| ==> Sorted(g[i]) by {
        assert Sorted(h[r]);
      }
      MergeSorted(g);
      var v := h[r][0];
      assert Files(Merge(h)) == [v] + Files(Merge(g));
      forall k | 0 <= k < |Merge(g)| ensures !Less(Merge(g)[k].file.stamp, v.stamp) {
        MergeMembers(g, k);
        HeadIsOldest(h, Merge(g)[k].channel, Merge(g)[k].file);
      }
      SortedCons(v, Files(Merge(g)));
    }
  }

  lemma SortedCons(v: File, fs: seq<File>)
    requires Sorted(fs) && forall k :: 0 <= k < |fs| ==> !Less(fs[k].stamp, v.stamp)
    ensures Sorted([v] + fs)
  {
  }

  lemma HeadIsOldest(h: Lists, i: nat, f: File)
    requires h != [] && i < |h| && Sorted(h[i]) && f in h[i]
    ensures h[Pick(h)] != [] && !Less(f.stamp, h[Pick(h)][0].stamp)
  {
    PickIsOldest(h);
    var k :| 0 <= k < |h[i]| && h[i][k] == f;
    LessTotal(f.stamp, f.stamp);
    LessTransitive(h[Pick(h)][0].stamp, h[i][0].stamp, f.stamp);
  }

  /** Sizes removed from the first `n` channels. */
  function ChannelTotal(m: seq<Victim>, n: nat): nat {
    if n == 0 then 0 else ChannelTotal(m, n - 1) + DiskSize(Own(m, n - 1))
  }

  lemma {:induction false} ChannelTotalSnoc(m: seq<Victim>, v: Victim, n: nat)
    ensures ChannelTotal(m + [v], n) == ChannelTotal(m, n) + (if v.channel < n then 512 * v.file.blocks else 0)
    decreases n
  {
    if n > 0 {
      ChannelTotalSnoc(m, v, n - 1);
      SnocStat(m, v, n - 1);
      DiskSizeSnoc(Own(m, n - 1), v.file);
      assert Own(m, n - 1) + [] == Own(m, n - 1);
    }
  }

  /** Files removed from the first `n` channels. */
  function ChannelCount(m: seq<Victim>, n: nat): nat {
    if n == 0 then 0 else ChannelCount(m, n - 1) + |Own(m, n - 1)|
  }

  lemma {:induction false} ChannelCountSnoc(m: seq<Victim>, v: Victim, n: nat)
    ensures ChannelCount(m + [v], n) == ChannelCount(m, n) + (if v.channel < n then 1 else 0)
    decreases n
  {
    if n > 0 {
      ChannelCountSnoc(m, v, n - 1);
      SnocStat(m, v, n - 1);
    }
  }

  /**
   A channel's count falls by the number of its files that went, unless it ran empty with a count that was not the
   number of its files: the count of an emptied channel is set to 0.
   */
  lemma CountFollows(c: Channel, o: Origin, fs: seq<File>)
    requires ChannelOk(c, o, fs) && o.numfiles < U64 && |o.files| < U64
    ensures c.dirstat.numfiles == (o.numfiles - |fs|) % U64
            <==> (fs != [] && c.files == [] ==> o.numfiles == |o.files|)
  {}

  /** The profile's totals fall by the sums of what the channels lose: in size and in number of files. */
  lemma {:induction false} TotalsConserved(m: seq<Victim>, n: nat)
    requires forall k :: 0 <= k < |m| ==> m[k].channel < n
    ensures DiskSize(Files(m)) == ChannelTotal(m, n) && |m| == ChannelCount(m, n)
    decreases |m|
  {
    if m == [] {
      NothingRemoved(n);
    } else {
      var init, v := m[..|m| - 1], m[|m| - 1];
      assert m == init + [v];
      TotalsConserved(init, n);
      ChannelTotalSnoc(init, v, n);
      ChannelCountSnoc(init, v, n);
      SnocStat(init, v, 0);
      DiskSizeSnoc(Files(init), v.file);
    }
  }

  lemma {:induction false} NothingRemoved(n: nat)
    ensures ChannelTotal([], n) == 0 && ChannelCount([], n) == 0
  {
    if n > 0 {
      NothingRemoved(n - 1);
    }
  }

  // ---------------------------------------------------------------- the limits in numbers

  /** The sizes do not wrap in 64 bits. */
  ghost predicate NoWrap(m: seq<Victim>, filesize: nat, lim: Limits) {
    filesize < U64 && lim.lowWater * lim.maxsize < U64 && DiskSize(Files(m)) <= filesize
  }

  /** After the first `k` deletions, the files left take at most `lowWater` percent of the maximum. */
  ghost predicate Low(m: seq<Victim>, filesize: nat, lim: Limits, k: nat)
    requires k <= |m|
  {
    100 * (filesize - DiskSize(Files(m[..k]))) <= lim.lowWater * lim.maxsize
  }

  /** The maximum is set, and reached. */
  predicate Full(filesize: nat, lim: Limits) {
    0 < lim.maxsize <= filesize
  }

  /** The maximum age is set, and reached by the oldest file. */
  predicate Old(lim: Limits) {
    0 < lim.maxlife <= lim.age % U64
  }

  /**
   Of the files in the order `m`, the first `n` go, and the first `k` of these for their size: as few as it takes to come
   down to the low-water limit, and none unless the maximum was reached. The others go because they are named before
   the time limit, and none unless the maximum age was reached; then the next one is not named before it.
   */
  ghost predicate AsAsked(m: seq<Victim>, filesize: nat, lim: Limits, k: nat, n: nat)
    requires k <= n <= |m|
  {
    && (0 < k ==> Full(filesize, lim))
    && (forall j :: 0 <= j < k ==> !Low(m, filesize, lim, j))
    && (Full(filesize, lim) ==> k == |m| || Low(m, filesize, lim, k))
    && (k < n ==> Old(lim))
    && (forall j :: k <= j < n ==> Less(m[j].file.stamp, lim.timelimit))
    && (n < |m| && Old(lim) ==> !Less(m[n].file.stamp, lim.timelimit))
  }

  ghost predicate Asked(m: seq<Victim>, filesize: nat, lim: Limits, n: nat) {
    n <= |m| && exists k :: 0 <= k <= n && AsAsked(m, filesize, lim, k, n)
  }

  lemma {:induction false} TimePhaseIs(m: seq<Victim>, limit: string)
    ensures var k := TimePhase(m, limit);
            && (forall j :: 0 <= j < k ==> Less(m[j].file.stamp, limit))
            && (k < |m| ==> !Less(m[k].file.stamp, limit))
  {
    hide Less;
    if m != [] && Less(m[0].file.stamp, limit) {
      TimePhaseIs(m[1..], limit);
      var k := TimePhase(m[1..], limit);
      forall j | 0 < j < k + 1 ensures Less(m[j].file.stamp, limit) {
        assert m[j] == m[1..][j - 1];
      }
    }
  }

  lemma {:induction false} PrefixSmaller(fs: seq<File>, k: nat)
    requires k <= |fs|
    ensures DiskSize(fs[..k]) <= DiskSize(fs)
    decreases |fs|
  {
    if k < |fs| {
      var n := |fs| - 1;
      PrefixSmaller(fs[..n], k);
      assert fs[..n][..k] == fs[..k];
    } else {
      assert fs[..k] == fs;
    }
  }

  /** Below the 64-bit wrap, the test against the limit is that for the low-water percentage. */
  lemma LowIs(m: seq<Victim>, filesize: nat, lim: Limits, k: nat)
    requires NoWrap(m, filesize, lim) && k <= |m|
    ensures Low(m, filesize, lim, k) <==> (filesize - DiskSize(Files(m[..k]))) % U64 <= lim.SizeLimit()
  {
    hide DiskSize, Files;
    assert Files(m[..k]) == Files(m)[..k] by { FilesPrefix(m, k); }
    PrefixSmaller(Files(m), k);
    var left := filesize - DiskSize(Files(m[..k]));
    Percent(left, lim.lowWater * lim.maxsize);
  }

  lemma FilesPrefix(m: seq<Victim>, k: nat)
    requires k <= |m|
    ensures |Files(m)| == |m| && Files(m[..k]) == Files(m)[..k]
  {}

  lemma Percent(left: nat, x: nat)
    requires left < U64 && x < U64
    ensures 100 * left <= x <==> left % U64 <= x % U64 / 100
  {}

  /** What the two phases delete is what the limits ask for. */
  lemma ExpiredAsAsked(m: seq<Victim>, filesize: nat, lim: Limits)
    requires NoWrap(m, filesize, lim)
    ensures Asked(m, filesize, lim, Expired(m, filesize, lim.SizeDone(filesize), lim.LifetimeDone(), lim))
  {
    hide DiskSize, Files, SizePhase, TimePhase, Less, Low, NoWrap, Limits.SizeLimit;
    var k := if lim.SizeDone(filesize) then 0 else SizePhase(m, filesize, lim.SizeLimit());
    var n := Expired(m, filesize, lim.SizeDone(filesize), lim.LifetimeDone(), lim);
    BelowWrap(m, filesize, lim);
    SizePhaseFewest(m, filesize, lim.SizeLimit());
    forall j | 0 <= j <= |m|
      ensures Low(m, filesize, lim, j) <==> (filesize - DiskSize(Files(m[..j]))) % U64 <= lim.SizeLimit()
    {
      LowIs(m, filesize, lim, j);
    }
    TimePhaseIs(m[k..], lim.timelimit);
    forall j | k <= j < |m| ensures m[j] == m[k..][j - k] {
    }
    assert AsAsked(m, filesize, lim, k, n);
  }

  lemma BelowWrap(m: seq<Victim>, filesize: nat, lim: Limits)
    requires NoWrap(m, filesize, lim)
    ensures filesize < U64
  {}

  /** With the files in the order of their names, no file that is left is named before the time limit. */
  lemma LeftAreYoung(m: seq<Victim>, filesize: nat, lim: Limits, n: nat, j: nat)
    requires Asked(m, filesize, lim, n) && Sorted(Files(m)) && Old(lim) && n <= j < |m|
    ensures !Less(m[j].file.stamp, lim.timelimit)
  {
    var fs := Files(m);
    LessTotal(fs[n].stamp, fs[n].stamp);
    assert !Less(fs[j].stamp, fs[n].stamp);
    LessTransitive(lim.timelimit, fs[n].stamp, fs[j].stamp);
  }

  // ---------------------------------------------------------------- one directory

  /** All files of one channel, as victims. */
  function Single(fs: seq<File>): (m: seq<Victim>)
    ensures |m| == |fs|
  {
    seq(|fs|, i requires 0 <= i < |fs| => Victim(0, fs[i]))
  }

  /**
   ExpireDir: one pass over the files of a directory, with both limits tested on the same
   file when the size limit has just been reached.
   */
  method ExpireDir(fs: seq<File>, stat: DirStat, lim: Limits) returns (expired: nat)
    requires stat.filesize < U64 && stat.numfiles < U64
    modifies stat
    ensures expired == Expired(Single(fs), old(stat.filesize), lim.SizeDone(old(stat.filesize)), lim.LifetimeDone(), lim)
    ensures stat.filesize == (old(stat.filesize) - DiskSize(fs[..expired])) % U64
    ensures stat.numfiles == if expired > old(stat.numfiles) then 0 else old(stat.numfiles) - expired
    ensures stat.rebuild == (old(stat.rebuild) || stat.numfiles == 0)
    ensures NoWrap(Single(fs), old(stat.filesize), lim) ==> Asked(Single(fs), old(stat.filesize), lim, expired)
  {
    hide Expired, DiskSize, Shrink, NoWrap, Asked;
    var sizeDone := lim.SizeDone(stat.filesize);
    var timeDone := lim.LifetimeDone();
    ghost var f0 := stat.filesize;
    ghost var k := Expired(Single(fs), f0, sizeDone, timeDone, lim);
    expired := 0;
    var done := false;
    var i := 0;
    NoneExpired(fs, f0);
    while i < |fs| && !done
      invariant i <= |fs| && (!done ==> expired == i) && expired <= i
      invariant stat.filesize == (f0 - DiskSize(fs[..expired])) % U64 && stat.numfiles == old(stat.numfiles)
      invariant !done ==> k == expired + Expired(Single(fs[i..]), stat.filesize, sizeDone, timeDone, lim)
      invariant done ==> k == expired
      invariant stat.rebuild == old(stat.rebuild)
    {
      var f := fs[i];
      ghost var m := Single(fs[i..]);
      assert m[1..] == Single(fs[i + 1..]) && fs[..i + 1] == fs[..i] + [f];
      ExpiredStep(m, stat.filesize, sizeDone, timeDone, lim);
      ExpiredStep(m, stat.filesize, true, timeDone, lim);
      ExpiredStep(m, stat.filesize, true, true, lim);
      ShrinkMore(f0, fs[..i], f);
      i := i + 1;
      if !sizeDone {
        if stat.filesize > lim.SizeLimit() {
          stat.filesize := Shrink(stat.filesize, f);
          expired := expired + 1;
          continue;
        }
        sizeDone := true;
      }
      if !timeDone {
        if Less(f.stamp, lim.timelimit) {
          stat.filesize := Shrink(stat.filesize, f);
          expired := expired + 1;
        } else {
          timeDone := true;
        }
      }
      done := sizeDone && timeDone;
    }
    if !done {
      ExpiredStep(Single(fs[i..]), stat.filesize, sizeDone, timeDone, lim);
    }
    if NoWrap(Single(fs), f0, lim) {
      ExpiredAsAsked(Single(fs), f0, lim);
    }
    if expired > stat.numfiles {
      stat.numfiles := 0;
      stat.rebuild := true;
    } else {
      stat.numfiles := stat.numfiles - expired;
    }
    if stat.numfiles == 0 {
      stat.rebuild := true;
    }
  }

  lemma NoneExpired(fs: seq<File>, f0: nat)
    requires f0 < U64
    ensures f0 == (f0 - DiskSize(fs[..0])) % U64 && fs[0..] == fs
  {
  }

  /** With a single channel the merge order is the order of its files, so both functions remove the same files. */
  lemma {:induction false} OneChannel(fs: seq<File>)
    ensures Merge([fs]) == Single(fs)
    decreases |fs|
  {
    var h := [fs];
    if fs != [] {
      MergeStep(h);
      assert h[0 := fs[1..]] == [fs[1..]];
      OneChannel(fs[1..]);
    }
  }
}
