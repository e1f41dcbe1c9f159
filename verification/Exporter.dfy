/**
 Registration of exporters in the table that flow files are read with: a record whose slot is
 taken by a different exporter moves that exporter to the next free slot above.
 */
module Exporter {
  const MAX_EXPORTERS: nat := 65535

  /** An exporter record: its system id, and the rest of its bytes. */
  datatype Info = Info(sysid: nat, rest: int)

  datatype Slot = Empty | Taken(info: Info)

  /** The slots; their number is MAX_EXPORTERS in ExporterList. */
  type Table = seq<Slot>

  /** What a call returns, leaves in the table, and writes back into the caller's record. */
  datatype Added = Added(ret: nat, slots: Table, rec: Info)

  /** First empty slot from `i` on. */
  function FirstEmpty(s: Table, i: nat): (r: nat)
    requires i <= |s|
    ensures i <= r <= |s| && (r < |s| ==> s[r].Empty?)
    ensures forall k :: i <= k < r ==> s[k].Taken?
    decreases |s| - i
  {
    if i < |s| && s[i].Taken? then FirstEmpty(s, i + 1) else i
  }

  /** AddExporterInfo; `noMemory` says that the allocation of a new entry fails. */
  function Add(s: Table, rec: Info, noMemory: bool): Added {
    var id := rec.sysid;
    if id >= |s| then Added(0, s, rec)
    else if s[id].Empty? then
      if noMemory then Added(0, s, rec) else Added(1, s[id := Taken(rec)], rec)
    else
      var same := Info(s[id].info.sysid, rec.rest);
      if same == s[id].info then Added(2, s, same)
      else
        var i := FirstEmpty(s, id + 1);
        if i >= |s| then Added(0, s, same)
        else
          var moved := s[i := s[id]][id := Empty];
          var entry := Info(i, rec.rest);
          if noMemory then Added(0, moved, entry) else Added(1, moved[id := Taken(entry)], entry)
  }

  class ExporterList {
    var list: array<Slot>

    ghost predicate Valid()
      reads this
    {
      list.Length == MAX_EXPORTERS
    }

    ghost function Slots(): Table
      reads this, list
      requires Valid()
    {
      list[..]
    }

    /** InitExporterList */
    constructor ()
      ensures Valid() && fresh(list) && forall i :: 0 <= i < MAX_EXPORTERS ==> Slots()[i] == Empty
    {
      list := new Slot[MAX_EXPORTERS](_ => Empty);
    }

    method AddExporterInfo(rec0: Info, noMemory: bool) returns (ret: nat, rec: Info)
      requires Valid()
      modifies list
      ensures Valid() && Added(ret, Slots(), rec) == Add(old(Slots()), rec0, noMemory)
    {
      rec := rec0;
      var id := rec.sysid;
      ghost var s := list[..];
      if id >= MAX_EXPORTERS {
        return 0, rec;
      }
      if list[id].Taken? {
        rec := rec.(sysid := list[id].info.sysid);
        if rec == list[id].info {
          return 2, rec;
        }
        var i := id + 1;
        while i < MAX_EXPORTERS && list[i].Taken?
          invariant id < i <= MAX_EXPORTERS && FirstEmpty(s, i) == FirstEmpty(s, id + 1)
        {
          i := i + 1;
        }
        if i >= MAX_EXPORTERS {
          return 0, rec;
        }
        list[i] := list[id];
        list[id] := Empty;
        rec := rec.(sysid := i);
        assert list[..] == s[i := s[id]][id := Empty];
      }
      if noMemory {
        return 0, rec;
      }
      list[id] := Taken(rec);
      return 1, rec;
    }
  }

  // ---------------------------------------------------------------- system ids

  function Occupied(s: Table): set<nat> {
    set i: nat | i < |s| && s[i].Taken?
  }

  function SysIds(s: Table): set<nat> {
    set i: nat | i < |s| && s[i].Taken? :: s[i].info.sysid
  }

  /** No two slots hold the same system id. */
  predicate Distinct(s: Table) {
    forall i: nat, j: nat :: i < j < |s| && s[i].Taken? && s[j].Taken? ==> s[i].info.sysid != s[j].info.sysid
  }

  /** The system ids stored are a permutation of the occupied slots. */
  predicate Permuted(s: Table) {
    Distinct(s) && SysIds(s) == Occupied(s)
  }

  /** Does this call move an exporter and then fail to allocate the new one? */
  predicate LosesSlot(s: Table, rec: Info, noMemory: bool) {
    && noMemory && rec.sysid < |s| && s[rec.sysid].Taken? && s[rec.sysid].info.rest != rec.rest
    && FirstEmpty(s, rec.sysid + 1) < |s|
  }

  lemma PermutedInsert(s: Table, id: nat, rec: Info)
    requires Permuted(s) && id < |s| && s[id].Empty? && rec.sysid == id
    ensures Permuted(s[id := Taken(rec)])
  {
    var t := s[id := Taken(rec)];
    assert Occupied(t) == Occupied(s) + {id};
    assert SysIds(t) == SysIds(s) + {id} by {
      assert t[id].info.sysid == id;
      forall x | x in SysIds(s) ensures x in SysIds(t) {
        var i: nat :| i < |s| && s[i].Taken? && s[i].info.sysid == x;
        assert t[i] == s[i];
      }
    }
    forall i: nat | i < |s| && s[i].Taken? ensures s[i].info.sysid != id {
      assert s[i].info.sysid in SysIds(s);
    }
  }

  lemma PermutedMove(s: Table, id: nat, i: nat, rest: int)
    requires Permuted(s) && id < i < |s| && s[i].Empty? && s[id].Taken?
    ensures Permuted(s[i := s[id]][id := Taken(Info(i, rest))])
  {
    var t := s[i := s[id]][id := Taken(Info(i, rest))];
    assert Occupied(t) == Occupied(s) + {i};
    assert SysIds(t) == SysIds(s) + {i} by {
      assert t[id].info.sysid == i;
      forall x | x in SysIds(s) ensures x in SysIds(t) {
        var j: nat :| j < |s| && s[j].Taken? && s[j].info.sysid == x;
        assert t[if j == id then i else j] == s[j];
      }
    }
    forall j: nat | j < |s| && s[j].Taken? ensures s[j].info.sysid != i {
      assert s[j].info.sysid in SysIds(s);
    }
  }

  /** With the new entry missing the old exporter's slot number is an id that no slot has. */
  lemma LostSlot(s: Table, id: nat, i: nat)
    requires Permuted(s) && id < i < |s| && s[i].Empty? && s[id].Taken?
    ensures !Permuted(s[i := s[id]][id := Empty])
  {
    var t := s[i := s[id]][id := Empty];
    assert id in SysIds(s);
    var j: nat :| j < |s| && s[j].Taken? && s[j].info.sysid == id;
    assert t[if j == id then i else j] == s[j];
    assert id in SysIds(t) && id !in Occupied(t);
  }

  /** A call keeps the ids a permutation of the slots, unless it runs out of memory after moving an exporter. */
  lemma AddKeepsPermutation(s: Table, rec: Info, noMemory: bool)
    requires Permuted(s)
    ensures Permuted(Add(s, rec, noMemory).slots) <==> !LosesSlot(s, rec, noMemory)
  {
    hide Permuted;
    var a := Add(s, rec, noMemory);
    var id := rec.sysid;
    if id < |s| && s[id].Empty? && !noMemory {
      PermutedInsert(s, id, rec);
    } else if id < |s| && s[id].Taken? && s[id].info.rest != rec.rest {
      var i := FirstEmpty(s, id + 1);
      if i < |s| && noMemory {
        LostSlot(s, id, i);
      } else if i < |s| {
        PermutedMove(s, id, i, rec.rest);
        assert a.slots == s[i := s[id]][id := Taken(Info(i, rec.rest))];
      }
    }
  }

  /** The records registered in a table. */
  ghost function Registered(s: Table): set<Info> {
    set i | 0 <= i < |s| && s[i].Taken? :: s[i].info
  }

  /** No registered exporter is lost or renumbered by a call; at most the new one is added. */
  lemma AddKeepsExporters(s: Table, rec: Info, noMemory: bool)
    ensures var a := Add(s, rec, noMemory);
            Registered(a.slots) == Registered(s) + (if a.ret == 1 then {a.rec} else {})
  {
    var a := Add(s, rec, noMemory);
    var id := rec.sysid;
    forall x | x in Registered(s) ensures x in Registered(a.slots) {
      var j :| 0 <= j < |s| && s[j].Taken? && s[j].info == x;
      var i := if id < |s| then FirstEmpty(s, id + 1) else 0;
      assert a.slots[j] == s[j] || (j == id && a.slots[i] == s[j]);
    }
    if a.ret == 1 {
      assert a.slots[id] == Taken(a.rec);
    }
  }

  /**
   A record is registered if its slot is free, or if the slot has another exporter and one above is free: then it is
   there with its own bytes, and with its own id if the slot was free.
   */
  lemma AddRegisters(s: Table, rec: Info)
    requires rec.sysid < |s|
    requires s[rec.sysid].Empty?
             || (s[rec.sysid].info.rest != rec.rest && exists i :: rec.sysid < i < |s| && s[i].Empty?)
    ensures var a := Add(s, rec, false);
            && a.ret == 1 && a.rec in Registered(a.slots) && a.rec.rest == rec.rest
            && (s[rec.sysid].Empty? ==> a.rec == rec)
  {
    var a, id := Add(s, rec, false), rec.sysid;
    assert a.slots[id] == Taken(a.rec);
  }

  /** A run of registrations. */
  function Run(s: Table, calls: seq<Info>): Table
    decreases |calls|
  {
    if calls == [] then s else Add(Run(s, calls[..|calls| - 1]), calls[|calls| - 1], false).slots
  }

  function NoExporters(n: nat): Table {
    seq(n, _ => Empty)
  }

  /** Over any run from the empty table no two registered exporters share a system id. */
  lemma {:induction false} RunKeepsIdsDistinct(n: nat, calls: seq<Info>)
    ensures Permuted(Run(NoExporters(n), calls))
    decreases |calls|
  {
    if calls != [] {
      RunKeepsIdsDistinct(n, calls[..|calls| - 1]);
      AddKeepsPermutation(Run(NoExporters(n), calls[..|calls| - 1]), calls[|calls| - 1], false);
    }
  }

  /** After a move the slot numbered like the old exporter holds the new one, under another id. */
  lemma MovedExporterLeavesItsSlot(s: Table, rec: Info)
    requires Permuted(s) && rec.sysid < |s| && s[rec.sysid].Taken? && Add(s, rec, false).ret == 1
    ensures var a := Add(s, rec, false);
            rec.sysid < a.rec.sysid < |a.slots| == |s| && a.slots[rec.sysid] == Taken(a.rec) && s[rec.sysid] == a.slots[a.rec.sysid]
  {
  }

  /**
   Registering a record again under its id adds nothing if and only if the slot of that number has the same record but
   for the id, or no slot above it is free. After a move the slot has another exporter.
   */
  lemma RegisteredAddsNothing(s: Table, rec: Info, noMemory: bool)
    requires Permuted(s) && rec in Registered(s)
    ensures rec.sysid < |s| && s[rec.sysid].Taken?
    ensures Add(s, rec, noMemory).slots == s
            <==> s[rec.sysid].info.rest == rec.rest || FirstEmpty(s, rec.sysid + 1) == |s|
  {
    var id, a := rec.sysid, Add(s, rec, noMemory);
    assert id in SysIds(s);
    var i := FirstEmpty(s, id + 1);
    if s[id].info.rest != rec.rest && i < |s| {
      assert a.slots[i].Taken?;
    }
  }

  /** So a moved exporter that is registered again is there twice, under two ids. */
  lemma MovedIsAddedAgain(s: Table, rec: Info)
    requires rec.sysid < |s| && s[rec.sysid].Taken? && s[rec.sysid].info.sysid == rec.sysid
    requires Add(s, rec, false).ret == 1 && FirstEmpty(Add(s, rec, false).slots, rec.sysid + 1) < |s|
    ensures var first, again := s[rec.sysid].info, Add(Add(s, rec, false).slots, s[rec.sysid].info, false);
            again.ret == 1 && {first, again.rec} <= Registered(again.slots)
            && again.rec.rest == first.rest && again.rec.sysid != first.sysid
  {
    var t, first := Add(s, rec, false).slots, s[rec.sysid].info;
    var i := FirstEmpty(s, rec.sysid + 1);
    assert t[i].info == first && first in Registered(t);
    AddKeepsExporters(t, first, false);
  }
}
