/**
 What a walk visits, and in which order, said of the file tree alone: which paths, as what, and which of two siblings
 first.
 */
module FtsLaws {
  import opened FtsTree
  import opened Names
  import opened Wrappers

  // ---------------------------------------------------------------- looking up a path in the tree

  /** The caller reads a directory, does not skip it, and stays on the device if asked to. */
  predicate Opened(o: Options, dev: nat, t: Tree) {
    t.Dir? && t.readable && !t.skip && (o.xdev ==> t.dev == dev)
  }

  /** Entries named "." and ".." are seen only if asked for, and never walked. */
  predicate Seen(o: Options, name: string) {
    o.seedot || (name != "." && name != "..")
  }

  /** The entry of a name. */
  function Entry(ts: seq<Tree>, name: string): (t: Option<Tree>)
    ensures t.Some? ==> t.value in ts && t.value.name == name
    ensures t.None? ==> forall i :: 0 <= i < |ts| ==> ts[i].name != name
  {
    if ts == [] then None else if ts[0].name == name then Some(ts[0]) else Entry(ts[1..], name)
  }

  /**
   What a walk finds under some names below a tree: every directory on the way must be opened, and be no dot entry, and
   no name on the way hidden. `root` says that the tree is one given to fts_open.
   */
  function Find(o: Options, dev: nat, t: Tree, root: bool, names: seq<Name>): (r: Option<Tree>)
    decreases |names|
  {
    if names == [] then Some(t)
    else if !Opened(o, dev, t) || (!root && (t.name == "." || t.name == "..")) || !Seen(o, names[0]) then None
    else
      var e := Entry(t.entries, names[0]);
      if e.None? then None else Find(o, dev, e.value, false, names[1..])
  }

  /** As what an entry is visited: a directory twice, the second time as unreadable if it is, anything else once. */
  function Shown(o: Options, dev: nat, t: Tree, root: bool): seq<nat> {
    match t
    case Leaf(_, info) => [info]
    case Dir(name, d, readable, _, skip) =>
      if !root && (name == "." || name == "..") then [FTS_DOT]
      else if !readable && !skip && (o.xdev ==> d == dev) then [FTS_D, FTS_DNR]
      else [FTS_D, FTS_DP]
  }

  /** The path of an entry: the names joined. */
  function PathOf(path: string, names: seq<Name>): string
    decreases |names|
  {
    if names == [] then path else PathOf(Join(path, names[0]), names[1..])
  }

  ghost predicate Plain(names: seq<Name>) {
    forall i :: 0 <= i < |names| ==> '/' !in names[i]
  }

  // ---------------------------------------------------------------- paths

  lemma {:induction false} UnderPath(path: string, names: seq<Name>, q: string)
    requires Under(PathOf(path, names), q)
    ensures Under(path, q) && (names != [] ==> q != path && Under(Join(path, names[0]), q))
    decreases |names|
  {
    hide Under, Join;
    if names != [] {
      UnderPath(Join(path, names[0]), names[1..], q);
      UnderJoin(path, names[0], q);
    }
  }

  lemma UnderItself(path: string)
    ensures Under(path, path)
  {}

  // ---------------------------------------------------------------- the children of a directory

  lemma {:induction false} ListedExactly(o: Options, ts: seq<Tree>, x: Tree)
    ensures x in Listed(o, ts) <==> x in ts && Seen(o, x.name)
  {
    if |ts| > 0 {
      ListedExactly(o, ts[1..], x);
      assert ts == [ts[0]] + ts[1..];
    }
  }

  lemma ChildrenExactly(o: Options, t: Tree, x: Tree)
    requires t.Dir?
    ensures x in Children(o, t) <==> x in t.entries && Seen(o, x.name)
  {
    hide Seen;
    var ls := Listed(o, t.entries);
    ListedExactly(o, t.entries, x);
    SortedIsSorted(ls);
    assert x in Sorted(ls) <==> x in multiset(Sorted(ls));
    assert x in ls <==> x in multiset(ls);
  }

  lemma EntryIs(ts: seq<Tree>, i: nat)
    requires i < |ts| && DistinctNames(ts)
    ensures Entry(ts, ts[i].name) == Some(ts[i])
  {
    hide DistinctNames;
    var e := Entry(ts, ts[i].name);
    var j :| 0 <= j < |ts| && ts[j] == e.value;
    OneOfName(ts, i, j);
  }

  lemma OneOfName(ts: seq<Tree>, i: nat, j: nat)
    requires DistinctNames(ts) && i < |ts| && j < |ts| && ts[i].name == ts[j].name
    ensures i == j
  {}

  /** Looking up a name among the children is looking it up in the directory, unless the name is hidden. */
  lemma EntryOfChildren(o: Options, t: Tree, name: string)
    requires t.Dir? && Proper(t)
    ensures AllProper(Children(o, t))
    ensures Entry(Children(o, t), name) == if Seen(o, name) then Entry(t.entries, name) else None
  {
    hide Seen, Children;
    var ks := Children(o, t);
    ChildrenProper(o, t);
    var a, b := Entry(ks, name), Entry(t.entries, name);
    if a.Some? {
      ChildrenExactly(o, t, a.value);
      var i :| 0 <= i < |t.entries| && t.entries[i] == a.value;
      EntryIs(t.entries, i);
    } else if b.Some? && Seen(o, name) {
      ChildrenExactly(o, t, b.value);
    }
  }

  // ---------------------------------------------------------------- which paths are visited, and as what

  /** Among siblings, a path below one name is visited by the one of that name alone. */
  lemma {:induction false} AllAt(o: Options, dev: nat, ts: seq<Tree>, path: string, name: Name, q: string)
    requires AllProper(ts) && '/' !in name && Under(Join(path, name), q)
    ensures At(AllVisits(o, dev, ts, path), q)
            == match Entry(ts, name)
               case None => []
               case Some(c) => At(Visits(o, dev, c, StatInfo(c), Join(path, name), name), q)
    decreases |ts|
  {
    hide Visits, At, Join, Under, Proper, StatInfo;
    if |ts| == 0 {
      AtStep([], q);
    } else {
      var t, p := ts[0], Join(path, ts[0].name);
      var vs, rest := Visits(o, dev, t, StatInfo(t), p, t.name), AllVisits(o, dev, ts[1..], path);
      AtConcat(vs, rest, q);
      AllAt(o, dev, ts[1..], path, name, q);
      StatOf(t);
      VisitsOnce(o, dev, t, StatInfo(t), p, t.name, q);
      if t.name == name {
        assert Entry(ts[1..], name).None?;
        assert At(vs, q) + [] == At(vs, q);
      } else {
        if Under(p, q) {
          SiblingsApart(path, t.name, name, q);
        }
        assert [] + At(rest, q) == At(rest, q);
      }
    }
  }

  /** Nothing below a directory has its path. */
  lemma NoneAtPath(o: Options, dev: nat, ts: seq<Tree>, path: string)
    requires AllProper(ts)
    ensures At(AllVisits(o, dev, ts, path), path) == []
  {
    if At(AllVisits(o, dev, ts, path), path) != [] {
      AllUnder(o, dev, ts, path, path);
    }
  }

  lemma ItsOwnVisits(o: Options, dev: nat, t: Tree, root: bool, path: string, name: string)
    requires Proper(t)
    ensures At(Visits(o, dev, t, if root then RootInfo(t) else StatInfo(t), path, name), path) == Shown(o, dev, t, root)
  {
    hide AllVisits, At, Proper;
    var info := if root then RootInfo(t) else StatInfo(t);
    AtOne(Visit(info, path, name), path);
    AtOne(Visit(FTS_DP, path, name), path);
    AtOne(Visit(FTS_DNR, path, name), path);
    if t.Dir? && info == FTS_D {
      var below := Below(o, dev, t, path, name);
      AtConcat([Visit(info, path, name)], below, path);
      if Opened(o, dev, t) {
        ChildrenProper(o, t);
        NoneAtPath(o, dev, Children(o, t), path);
        AtConcat(AllVisits(o, dev, Children(o, t), path), [Visit(FTS_DP, path, name)], path);
      }
    } else {
      assert Visits(o, dev, t, info, path, name) == [Visit(info, path, name)];
    }
  }

  lemma AtOne(v: Visit, q: string)
    ensures At([v], q) == if v.path == q then [v.info] else []
  {
    assert [v][1..] == [];
    AtStep([], q);
  }

  /** A path below an opened directory is visited just as often as among its children, and else not at all. */
  lemma BelowOpened(o: Options, dev: nat, t: Tree, root: bool, path: string, name: string, q: string)
    requires Proper(t) && q != path
    ensures var vs := Visits(o, dev, t, if root then RootInfo(t) else StatInfo(t), path, name);
            At(vs, q) == if Opened(o, dev, t) && (root || (t.name != "." && t.name != ".."))
                         then At(AllVisits(o, dev, Children(o, t), path), q) else []
  {
    hide AllVisits, At, Proper, Children;
    var info := if root then RootInfo(t) else StatInfo(t);
    AtOne(Visit(info, path, name), q);
    AtOne(Visit(FTS_DP, path, name), q);
    AtOne(Visit(FTS_DNR, path, name), q);
    if t.Dir? && info == FTS_D {
      AtConcat([Visit(info, path, name)], Below(o, dev, t, path, name), q);
      if Opened(o, dev, t) {
        var all := AllVisits(o, dev, Children(o, t), path);
        AtConcat(all, [Visit(FTS_DP, path, name)], q);
        assert At(all, q) + [] == At(all, q) && [] + At(all, q) == At(all, q);
      }
    } else {
      assert Visits(o, dev, t, info, path, name) == [Visit(info, path, name)];
    }
  }

  /** A path is visited as what is found there, and not at all if nothing is found. */
  lemma {:induction false} FoundIsVisited(o: Options, dev: nat, t: Tree, root: bool, path: string, name: string,
                                          names: seq<Name>)
    requires Proper(t) && Plain(names)
    ensures var vs := Visits(o, dev, t, if root then RootInfo(t) else StatInfo(t), path, name);
            At(vs, PathOf(path, names))
            == match Find(o, dev, t, root, names)
               case None => []
               case Some(e) => Shown(o, dev, e, root && names == [])
    decreases |names|
  {
    hide Visits, AllVisits, At, Join, Under, Proper, Children, Seen, Shown, StatInfo, RootInfo;
    if names == [] {
      ItsOwnVisits(o, dev, t, root, path, name);
    } else {
      var q, n := PathOf(path, names), names[0];
      UnderItself(q);
      UnderPath(path, names, q);
      BelowOpened(o, dev, t, root, path, name, q);
      if Opened(o, dev, t) && (root || (t.name != "." && t.name != "..")) {
        EntryOfChildren(o, t, n);
        AllAt(o, dev, Children(o, t), path, n, q);
        if Entry(Children(o, t), n).Some? {
          var c := Entry(Children(o, t), n).value;
          FoundIsVisited(o, dev, c, false, Join(path, n), n, names[1..]);
        }
      }
    }
  }

  // ---------------------------------------------------------------- several roots

  /** No path is below two of the roots. */
  ghost predicate Apart(roots: seq<Tree>) {
    forall i, j, q :: 0 <= i < j < |roots| && Under(roots[i].name, q) ==> !Under(roots[j].name, q)
  }

  ghost predicate Roots(roots: seq<Tree>) {
    Apart(roots) && forall i :: 0 <= i < |roots| ==> Proper(roots[i])
  }

  function VisitsOf(o: Options, root: Tree): seq<Visit> {
    Visits(o, DevOf(root), root, RootInfo(root), root.name, Basename(root.name))
  }

  /** A path below one root is visited by that root alone. */
  lemma {:induction false} RootsAt(o: Options, rs: seq<Tree>, k: nat, q: string)
    requires Roots(rs) && k < |rs| && Under(rs[k].name, q)
    ensures At(RootVisits(o, rs), q) == At(VisitsOf(o, rs[k]), q)
    decreases |rs|
  {
    hide Visits, At, Under, Proper, RootInfo;
    var t := rs[0];
    var vs, rest := VisitsOf(o, t), RootVisits(o, rs[1..]);
    AtConcat(vs, rest, q);
    RootOf(t);
    VisitsOnce(o, DevOf(t), t, RootInfo(t), t.name, Basename(t.name), q);
    if k == 0 {
      RootsNone(o, rs[1..], q);
      assert At(vs, q) + [] == At(vs, q);
    } else {
      RootsAt(o, rs[1..], k - 1, q);
      assert [] + At(rest, q) == At(rest, q);
    }
  }

  lemma RootOf(t: Tree)
    ensures if t.Dir? then RootInfo(t) == FTS_D else RootInfo(t) == t.info
  {}

  lemma {:induction false} RootsNone(o: Options, rs: seq<Tree>, q: string)
    requires (forall i :: 0 <= i < |rs| ==> Proper(rs[i])) && forall i :: 0 <= i < |rs| ==> !Under(rs[i].name, q)
    ensures At(RootVisits(o, rs), q) == []
    decreases |rs|
  {
    hide Visits, At, Under, Proper, RootInfo;
    AtStep([], q);
    if rs != [] {
      var t := rs[0];
      AtConcat(VisitsOf(o, t), RootVisits(o, rs[1..]), q);
      RootOf(t);
      VisitsOnce(o, DevOf(t), t, RootInfo(t), t.name, Basename(t.name), q);
      RootsNone(o, rs[1..], q);
      assert At(VisitsOf(o, t), q) + At(RootVisits(o, rs[1..]), q) == [];
    }
  }

  lemma {:induction false} ReversedHas(ts: seq<Tree>)
    ensures multiset(Reversed(ts)) == multiset(ts)
  {
    if |ts| > 0 {
      ReversedHas(ts[1..]);
      assert ts == [ts[0]] + ts[1..];
    }
  }

  /** The roots in the order in which they are walked. */
  function Walked(o: Options, roots: seq<Tree>): seq<Tree> {
    Order(o, if o.sorted then Reversed(roots) else roots)
  }

  lemma ApartNames(roots: seq<Tree>)
    requires Apart(roots)
    ensures DistinctNames(roots)
  {
    forall i, j | 0 <= i < j < |roots| ensures roots[i].name != roots[j].name {
      UnderItself(roots[i].name);
    }
  }

  /** They are the same roots. */
  lemma WalkedIs(o: Options, roots: seq<Tree>)
    requires Roots(roots)
    ensures var rs := Walked(o, roots); Roots(rs) && multiset(rs) == multiset(roots) && DistinctNames(rs)
  {
    hide Proper, Under;
    var rs := Walked(o, roots);
    ReversedHas(roots);
    SortedIsSorted(Reversed(roots));
    ApartNames(roots);
    SameNames(roots, rs);
    forall i | 0 <= i < |rs| ensures Proper(rs[i]) {
      assert rs[i] in multiset(rs);
    }
    forall i, j, q | 0 <= i < j < |rs| && Under(rs[i].name, q) ensures !Under(rs[j].name, q) {
      assert rs[i] in multiset(roots) && rs[j] in multiset(roots);
      var a :| 0 <= a < |roots| && roots[a] == rs[i];
      var b :| 0 <= b < |roots| && roots[b] == rs[j];
      assert rs[i].name != rs[j].name;
      assert a != b;
    }
  }

  /** Names that are distinct in one order are in every other. */
  lemma SameNames(xs: seq<Tree>, ys: seq<Tree>)
    requires multiset(xs) == multiset(ys) && DistinctNames(xs)
    ensures DistinctNames(ys)
  {
    forall i, j | 0 <= i < j < |ys| ensures ys[i].name != ys[j].name {
      if ys[i].name == ys[j].name {
        assert ys[i] in multiset(xs) && ys[j] in multiset(xs);
        var a :| 0 <= a < |xs| && xs[a] == ys[i];
        var b :| 0 <= b < |xs| && xs[b] == ys[j];
        assert a == b;
        TwiceCounts(ys, i, j);
        OnceCounts(xs, a);
        assert false;
      }
    }
  }

  lemma TwiceCounts(ys: seq<Tree>, i: nat, j: nat)
    requires i < j < |ys| && ys[i] == ys[j]
    ensures multiset(ys)[ys[i]] >= 2
  {
    assert ys == ys[..i] + [ys[i]] + ys[i + 1..j] + [ys[j]] + ys[j + 1..];
  }

  lemma OnceCounts(xs: seq<Tree>, a: nat)
    requires a < |xs| && DistinctNames(xs)
    ensures multiset(xs)[xs[a]] == 1
  {
    assert xs == xs[..a] + [xs[a]] + xs[a + 1..];
    assert xs[a] !in xs[..a] && xs[a] !in xs[a + 1..];
  }

  /**
   The law of what a walk visits: under the joined names of a path below a root, just the entry that is found there in
   the tree, if every directory on the way is opened and no name on the way is hidden.
   */
  lemma VisitedExactly(o: Options, roots: seq<Tree>, k: nat, names: seq<Name>)
    requires Roots(roots) && k < |roots| && Plain(names)
    ensures At(Traversal(o, roots), PathOf(roots[k].name, names))
            == match Find(o, DevOf(roots[k]), roots[k], true, names)
               case None => []
               case Some(e) => Shown(o, DevOf(roots[k]), e, names == [])
  {
    hide Visits, At, Find, PathOf, Shown, Order, Proper, Under, RootVisits;
    var t, q, rs := roots[k], PathOf(roots[k].name, names), Walked(o, roots);
    WalkedIs(o, roots);
    assert t in multiset(rs);
    var i :| 0 <= i < |rs| && rs[i] == t;
    UnderItself(q);
    UnderPath(t.name, names, q);
    RootsAt(o, rs, i, q);
    FoundIsVisited(o, DevOf(t), t, true, t.name, Basename(t.name), names);
  }

  // ---------------------------------------------------------------- which of two siblings comes first

  /** All visits below `p` are before all those below `q`. */
  ghost predicate Before(vs: seq<Visit>, p: string, q: string) {
    forall i, j :: 0 <= i < |vs| && 0 <= j < |vs| && Under(p, vs[i].path) && Under(q, vs[j].path) ==> i < j
  }

  ghost predicate NoneUnder(vs: seq<Visit>, p: string) {
    forall i :: 0 <= i < |vs| ==> !Under(p, vs[i].path)
  }

  lemma BeforeConcat(a: seq<Visit>, b: seq<Visit>, p: string, q: string)
    requires Before(a, p, q) && Before(b, p, q) && (NoneUnder(a, q) || NoneUnder(b, p))
    ensures Before(a + b, p, q)
  {
    hide Under;
    var vs := a + b;
    forall i, j | 0 <= i < |vs| && 0 <= j < |vs| && Under(p, vs[i].path) && Under(q, vs[j].path) ensures i < j {
      if i < |a| && j < |a| {
        assert Under(p, a[i].path) && Under(q, a[j].path);
      } else if |a| <= i && |a| <= j {
        assert Under(p, b[i - |a|].path) && Under(q, b[j - |a|].path);
      }
    }
  }

  lemma NoneIsBefore(vs: seq<Visit>, p: string, q: string)
    requires NoneUnder(vs, p) || NoneUnder(vs, q)
    ensures Before(vs, p, q)
  {
    hide Under;
  }

  lemma NoneConcat(a: seq<Visit>, b: seq<Visit>, p: string)
    requires NoneUnder(a, p) && NoneUnder(b, p)
    ensures NoneUnder(a + b, p)
  {
    hide Under;
  }

  /** No visit of a tree is below a path that has nothing in common with that of the tree. */
  lemma OthersNotUnder(o: Options, dev: nat, t: Tree, info: nat, path: string, name: string, p: string)
    requires Proper(t) && (if t.Dir? then info in {FTS_D, FTS_DOT} else info == t.info)
    requires forall q :: Under(path, q) ==> !Under(p, q)
    ensures NoneUnder(Visits(o, dev, t, info, path, name), p)
  {
    hide Visits, At, Under, Proper;
    var vs := Visits(o, dev, t, info, path, name);
    forall i | 0 <= i < |vs| ensures !Under(p, vs[i].path) {
      AtHas(vs, i);
      VisitsOnce(o, dev, t, info, path, name, vs[i].path);
    }
  }

  lemma SiblingNotUnder(o: Options, dev: nat, t: Tree, path: string, n: Name, p: string)
    requires Proper(t) && '/' !in t.name && '/' !in n && t.name != n && forall q :: Under(p, q) ==> Under(Join(path, n), q)
    ensures NoneUnder(Visits(o, dev, t, StatInfo(t), Join(path, t.name), t.name), p)
  {
    hide Visits, Under, Proper, StatInfo, Join;
    StatOf(t);
    forall q | Under(Join(path, t.name), q) ensures !Under(p, q) {
      if Under(p, q) {
        SiblingsApart(path, t.name, n, q);
      }
    }
    OthersNotUnder(o, dev, t, StatInfo(t), Join(path, t.name), t.name, p);
  }

  /** Below a name that none of the siblings has there are no visits. */
  lemma {:induction false} AbsentNotUnder(o: Options, dev: nat, ts: seq<Tree>, path: string, n: Name, p: string)
    requires AllProper(ts) && '/' !in n && forall i :: 0 <= i < |ts| ==> ts[i].name != n
    requires forall q :: Under(p, q) ==> Under(Join(path, n), q)
    ensures NoneUnder(AllVisits(o, dev, ts, path), p)
    decreases |ts|
  {
    hide Visits, Under, Proper, StatInfo, Join;
    if ts != [] {
      SiblingNotUnder(o, dev, ts[0], path, n, p);
      AbsentNotUnder(o, dev, ts[1..], path, n, p);
      NoneConcat(Visits(o, dev, ts[0], StatInfo(ts[0]), Join(path, ts[0].name), ts[0].name),
                 AllVisits(o, dev, ts[1..], path), p);
    }
  }

  /** Siblings that are walked in this order are visited in this order. */
  lemma {:induction false} AllOrdered(o: Options, dev: nat, ts: seq<Tree>, path: string, m: Name, n: Name)
    requires AllProper(ts) && '/' !in m && '/' !in n && m != n
    requires forall i, j :: 0 <= i < |ts| && 0 <= j < |ts| && ts[i].name == m && ts[j].name == n ==> i < j
    ensures Before(AllVisits(o, dev, ts, path), Join(path, m), Join(path, n))
    decreases |ts|
  {
    hide Visits, Under, Proper, StatInfo, Join, NoneUnder;
    var p, q := Join(path, m), Join(path, n);
    if ts == [] {
      hide AllVisits;
      NoVisits(o, dev, ts, path, p, q);
    } else {
      var t := ts[0];
      var vs, rest := Visits(o, dev, t, StatInfo(t), Join(path, t.name), t.name), AllVisits(o, dev, ts[1..], path);
      AllOrdered(o, dev, ts[1..], path, m, n);
      if t.name == n {
        SiblingNotUnder(o, dev, t, path, m, p);
        AbsentNotUnder(o, dev, ts[1..], path, m, p);
      } else {
        SiblingNotUnder(o, dev, t, path, n, q);
      }
      NoneIsBefore(vs, p, q);
      BeforeConcat(vs, rest, p, q);
    }
  }

  lemma NoVisits(o: Options, dev: nat, ts: seq<Tree>, path: string, p: string, q: string)
    requires ts == []
    ensures Before(AllVisits(o, dev, ts, path), p, q)
  {}

  /** What is ordered among the visits of one sibling is so among those of all. */
  lemma {:induction false} AllOfOne(o: Options, dev: nat, ts: seq<Tree>, path: string, c: Tree, p: string, q: string)
    requires AllProper(ts) && c in ts
    requires forall r :: Under(p, r) || Under(q, r) ==> Under(Join(path, c.name), r)
    requires Before(Visits(o, dev, c, StatInfo(c), Join(path, c.name), c.name), p, q)
    ensures Before(AllVisits(o, dev, ts, path), p, q)
    decreases |ts|
  {
    hide Visits, Under, Proper, StatInfo, Join, NoneUnder, Before;
    var t := ts[0];
    var vs, rest := Visits(o, dev, t, StatInfo(t), Join(path, t.name), t.name), AllVisits(o, dev, ts[1..], path);
    if t.name == c.name {
      assert t == c;
      AbsentNotUnder(o, dev, ts[1..], path, c.name, p);
      NoneIsBefore(rest, p, q);
    } else {
      AllOfOne(o, dev, ts[1..], path, c, p, q);
      assert '/' !in c.name;
      SiblingNotUnder(o, dev, t, path, c.name, q);
      NoneIsBefore(vs, p, q);
    }
    BeforeConcat(vs, rest, p, q);
  }

  /** In a directory the entry `m` is to come before the entry `n`: by name, or else as the directory lists them. */
  ghost predicate Precedes(o: Options, ts: seq<Tree>, m: string, n: string) {
    if o.sorted then Less(m, n) else exists i, j :: 0 <= i < j < |ts| && ts[i].name == m && ts[j].name == n
  }

  lemma {:induction false} ListedInOrder(o: Options, ts: seq<Tree>, a: nat, b: nat)
    requires DistinctNames(ts) && a < |Listed(o, ts)| && b < |Listed(o, ts)|
    requires exists i, j :: 0 <= i < j < |ts| && ts[i].name == Listed(o, ts)[a].name && ts[j].name == Listed(o, ts)[b].name
    ensures a < b
    decreases |ts|
  {
    hide IsDot, DistinctNames;
    var ls := Listed(o, ts);
    var i, j :| 0 <= i < j < |ts| && ts[i].name == ls[a].name && ts[j].name == ls[b].name;
    var rest := Listed(o, ts[1..]);
    HeadIsElse(o, ts);
    var shift := if ls == rest then 0 else 1;
    if shift == 1 && b == 0 {
      OneOfName(ts, 0, j);
    } else if !(shift == 1 && a == 0) {
      assert ls[a] == rest[a - shift] && ls[b] == rest[b - shift];
      assert ts[i].name != ts[0].name && ts[j].name != ts[0].name;
      assert ts[1..][i - 1] == ts[i] && ts[1..][j - 1] == ts[j];
      ListedInOrder(o, ts[1..], a - shift, b - shift);
    }
  }

  lemma HeadIsElse(o: Options, ts: seq<Tree>)
    requires DistinctNames(ts) && |ts| > 0
    ensures DistinctNames(ts[1..]) && forall x :: x in Listed(o, ts[1..]) ==> x.name != ts[0].name
  {
    ListedHas(o, ts[1..]);
    forall x | x in Listed(o, ts[1..]) ensures x.name != ts[0].name {
      var k :| 0 <= k < |ts[1..]| && ts[1..][k] == x;
      assert ts[k + 1] == x;
    }
  }

  lemma ChildrenOrdered(o: Options, t: Tree, m: string, n: string, i: nat, j: nat)
    requires t.Dir? && Proper(t) && m != n && Precedes(o, t.entries, m, n)
    requires i < |Children(o, t)| && j < |Children(o, t)| && Children(o, t)[i].name == m && Children(o, t)[j].name == n
    ensures i < j
  {
    if o.sorted {
      SortedIsSorted(Listed(o, t.entries));
    } else {
      ListedInOrder(o, t.entries, i, j);
    }
  }

  /** Before and behind what is below a directory are visits of its own path alone. */
  lemma AroundBelow(o: Options, dev: nat, t: Tree, root: bool, path: string, name: string, p: string, q: string)
    requires Proper(t) && !Under(p, path) && !Under(q, path)
    requires Opened(o, dev, t) && (root || (t.name != "." && t.name != ".."))
             ==> Before(AllVisits(o, dev, Children(o, t), path), p, q)
    ensures Before(Visits(o, dev, t, if root then RootInfo(t) else StatInfo(t), path, name), p, q)
  {
    hide AllVisits, Children, Under, Proper;
    var info := if root then RootInfo(t) else StatInfo(t);
    var vs, first := Visits(o, dev, t, info, path, name), [Visit(info, path, name)];
    if Opened(o, dev, t) && (root || (t.name != "." && t.name != "..")) {
      var all, last := AllVisits(o, dev, Children(o, t), path), [Visit(FTS_DP, path, name)];
      NoneIsBefore(first, p, q);
      NoneIsBefore(last, p, q);
      BeforeConcat(all, last, p, q);
      BeforeConcat(first, all + last, p, q);
      assert Below(o, dev, t, path, name) == all + last;
      assert vs == first + (all + last);
    } else {
      assert t.Dir? && info == FTS_D ==> |Below(o, dev, t, path, name)| == 1 && Below(o, dev, t, path, name)[0].path == path;
      assert forall i :: 0 <= i < |vs| ==> vs[i].path == path;
      NoneIsBefore(vs, p, q);
    }
  }

  /** Two entries of a directory that the walk finds are visited in the order in which they are to come. */
  lemma {:induction false} InOrder(o: Options, dev: nat, t: Tree, root: bool, path: string, name: string,
                                   names: seq<Name>, m: Name, n: Name)
    requires Proper(t) && Plain(names) && '/' !in m && '/' !in n && m != n
    requires var d := Find(o, dev, t, root, names); d.Some? && d.value.Dir? && Precedes(o, d.value.entries, m, n)
    ensures var p := PathOf(path, names);
            Before(Visits(o, dev, t, if root then RootInfo(t) else StatInfo(t), path, name), Join(p, m), Join(p, n))
    decreases |names|
  {
    hide Visits, AllVisits, Join, Under, Proper, Children, Seen, StatInfo, RootInfo, Precedes, Before;
    var p, q := Join(PathOf(path, names), m), Join(PathOf(path, names), n);
    NotAbove(path, names, m);
    NotAbove(path, names, n);
    if Opened(o, dev, t) && (root || (t.name != "." && t.name != "..")) {
      var ks := Children(o, t);
      ChildrenProper(o, t);
      if names == [] {
        forall i, j | 0 <= i < |ks| && 0 <= j < |ks| && ks[i].name == m && ks[j].name == n ensures i < j {
          ChildrenOrdered(o, t, m, n, i, j);
        }
        AllOrdered(o, dev, ks, path, m, n);
      } else {
        EntryOfChildren(o, t, names[0]);
        var c := Entry(ks, names[0]).value;
        InOrder(o, dev, c, false, Join(path, names[0]), c.name, names[1..], m, n);
        forall r | Under(p, r) || Under(q, r) ensures Under(Join(path, c.name), r) {
          if Under(p, r) { BelowFirst(path, names, m, r); } else { BelowFirst(path, names, n, r); }
        }
        AllOfOne(o, dev, ks, path, c, p, q);
      }
    }
    AroundBelow(o, dev, t, root, path, name, p, q);
  }

  /** A path is not below an entry of its own, or of a directory below it. */
  lemma NotAbove(path: string, names: seq<Name>, m: Name)
    ensures !Under(Join(PathOf(path, names), m), path)
  {
    hide Under, Join;
    if Under(Join(PathOf(path, names), m), path) {
      UnderJoin(PathOf(path, names), m, path);
      UnderPath(path, names, path);
    }
  }

  lemma BelowFirst(path: string, names: seq<Name>, m: Name, r: string)
    requires names != [] && Under(Join(PathOf(path, names), m), r)
    ensures Under(Join(path, names[0]), r)
  {
    hide Under, Join;
    UnderJoin(PathOf(path, names), m, r);
    UnderPath(path, names, r);
  }

  lemma RootNotUnder(o: Options, t: Tree, p: string)
    requires Proper(t) && forall q :: Under(t.name, q) ==> !Under(p, q)
    ensures NoneUnder(VisitsOf(o, t), p)
  {
    hide Visits, Under, Proper, RootInfo;
    RootOf(t);
    OthersNotUnder(o, DevOf(t), t, RootInfo(t), t.name, Basename(t.name), p);
  }

  lemma {:induction false} RootsNotUnder(o: Options, rs: seq<Tree>, p: string)
    requires forall i :: 0 <= i < |rs| ==> Proper(rs[i]) && forall q :: Under(rs[i].name, q) ==> !Under(p, q)
    ensures NoneUnder(RootVisits(o, rs), p)
    decreases |rs|
  {
    hide Visits, Under, Proper, RootInfo, NoneUnder;
    if rs == [] {
      NoRoots(o, rs, p);
    } else {
      RootNotUnder(o, rs[0], p);
      RootsNotUnder(o, rs[1..], p);
      NoneConcat(VisitsOf(o, rs[0]), RootVisits(o, rs[1..]), p);
    }
  }

  lemma NoRoots(o: Options, rs: seq<Tree>, p: string)
    requires rs == []
    ensures NoneUnder(RootVisits(o, rs), p)
  {}

  /** Roots that are walked in this order are visited in this order. */
  lemma {:induction false} RootsOrdered(o: Options, rs: seq<Tree>, i: nat, j: nat)
    requires Roots(rs) && i < j < |rs|
    ensures Before(RootVisits(o, rs), rs[i].name, rs[j].name)
    decreases |rs|
  {
    hide Visits, Under, Proper, RootInfo, NoneUnder, Before;
    var p, q := rs[i].name, rs[j].name;
    var vs, rest := VisitsOf(o, rs[0]), RootVisits(o, rs[1..]);
    RootNotUnder(o, rs[0], q);
    NoneIsBefore(vs, p, q);
    if i == 0 {
      RootsNotUnder(o, rs[1..], p);
      NoneIsBefore(rest, p, q);
    } else {
      RootsOrdered(o, rs[1..], i - 1, j - 1);
    }
    BeforeConcat(vs, rest, p, q);
  }

  /** What is ordered among the visits of one root is so among those of all. */
  lemma {:induction false} RootsOfOne(o: Options, rs: seq<Tree>, k: nat, p: string, q: string)
    requires Roots(rs) && k < |rs| && Before(VisitsOf(o, rs[k]), p, q)
    requires forall r :: Under(p, r) || Under(q, r) ==> Under(rs[k].name, r)
    ensures Before(RootVisits(o, rs), p, q)
    decreases |rs|
  {
    hide Visits, Under, Proper, RootInfo, NoneUnder, Before;
    var vs, rest := VisitsOf(o, rs[0]), RootVisits(o, rs[1..]);
    if k == 0 {
      RootsNotUnder(o, rs[1..], p);
      NoneIsBefore(rest, p, q);
    } else {
      RootsOfOne(o, rs[1..], k - 1, p, q);
      RootNotUnder(o, rs[0], q);
      NoneIsBefore(vs, p, q);
    }
    BeforeConcat(vs, rest, p, q);
  }

  /**
   The law of order: of two entries of a directory that the walk finds, the one that is to come first has all visits of
   it and of what is below it first. With a comparison function that is the one with the lesser name.
   */
  lemma SiblingsInOrder(o: Options, roots: seq<Tree>, k: nat, names: seq<Name>, m: Name, n: Name)
    requires Roots(roots) && k < |roots| && Plain(names) && '/' !in m && '/' !in n && m != n
    requires var d := Find(o, DevOf(roots[k]), roots[k], true, names);
             d.Some? && d.value.Dir? && Precedes(o, d.value.entries, m, n)
    ensures var p := PathOf(roots[k].name, names); Before(Traversal(o, roots), Join(p, m), Join(p, n))
  {
    hide Visits, Find, PathOf, Order, Proper, Under, RootVisits, Precedes, Before, Join;
    var t, rs := roots[k], Walked(o, roots);
    var p, q := Join(PathOf(t.name, names), m), Join(PathOf(t.name, names), n);
    WalkedIs(o, roots);
    assert t in multiset(rs);
    var i :| 0 <= i < |rs| && rs[i] == t;
    InOrder(o, DevOf(t), t, true, t.name, Basename(t.name), names, m, n);
    forall r | Under(p, r) || Under(q, r) ensures Under(t.name, r) {
      UnderJoin(PathOf(t.name, names), if Under(p, r) then m else n, r);
      UnderPath(t.name, names, r);
    }
    RootsOfOne(o, rs, i, p, q);
  }

  /** The roots likewise. */
  lemma RootsInOrder(o: Options, roots: seq<Tree>, i: nat, j: nat)
    requires Roots(roots) && i < |roots| && j < |roots|
    requires if o.sorted then Less(roots[i].name, roots[j].name) else i < j
    ensures Before(Traversal(o, roots), roots[i].name, roots[j].name)
  {
    hide Visits, Proper, Under, RootVisits, Before, Roots, Less;
    var rs := Walked(o, roots);
    WalkedIs(o, roots);
    if o.sorted {
      SortedIsSorted(Reversed(roots));
      LessTotal(roots[i].name, roots[i].name);
      assert roots[i] in multiset(rs) && roots[j] in multiset(rs);
      var a :| 0 <= a < |rs| && rs[a] == roots[i];
      var b :| 0 <= b < |rs| && rs[b] == roots[j];
      assert a < b;
      RootsOrdered(o, rs, a, b);
    } else {
      RootsOrdered(o, rs, i, j);
    }
  }

  // ---------------------------------------------------------------- the names in the visits

  /** The visit is one of this path and name, or one of an entry below, whose name is the last part of its path. */
  ghost predicate Named(v: Visit, path: string, name: string) {
    (v.path == path && v.name == name) || exists p, n: Name :: v.name == n && v.path == Join(p, n)
  }

  lemma {:induction false} VisitsNamed(o: Options, dev: nat, t: Tree, info: nat, path: string, name: string, i: nat)
    requires i < |Visits(o, dev, t, info, path, name)|
    ensures Named(Visits(o, dev, t, info, path, name)[i], path, name)
    decreases Depth(t), 1, 0
  {
    hide Join, AllVisits;
    if 0 < i {
      var below := Below(o, dev, t, path, name);
      if Opened(o, dev, t) && i < |below| {
        AllNamed(o, dev, Children(o, t), path, i - 1);
      }
    }
  }

  lemma {:induction false} AllNamed(o: Options, dev: nat, ts: seq<Tree>, path: string, i: nat)
    requires i < |AllVisits(o, dev, ts, path)|
    ensures var v := AllVisits(o, dev, ts, path)[i]; exists p, n: Name :: v.name == n && v.path == Join(p, n)
    decreases DepthAll(ts), 2, |ts|
  {
    hide Join, Visits;
    var vs := Visits(o, dev, ts[0], StatInfo(ts[0]), Join(path, ts[0].name), ts[0].name);
    if i < |vs| {
      VisitsNamed(o, dev, ts[0], StatInfo(ts[0]), Join(path, ts[0].name), ts[0].name, i);
    } else {
      AllNamed(o, dev, ts[1..], path, i - |vs|);
    }
  }

  /** What is left of a root's name is what stands behind its last slash, and all of "/". */
  lemma {:induction false} BasenameIs(name: string)
    ensures name == "/" ==> Basename(name) == "/"
    ensures name != "/" ==>
              var b := Basename(name);
              && '/' !in b && |b| <= |name| && name[|name| - |b|..] == b
              && (|b| < |name| ==> name[|name| - |b| - 1] == '/')
  {
    BehindSlash(name);
  }

  lemma {:induction false} BehindSlash(name: string)
    ensures var b := AfterSlash(name);
            && '/' !in b && |b| <= |name| && name[|name| - |b|..] == b
            && (|b| < |name| ==> name[|name| - |b| - 1] == '/')
  {
    if |name| > 0 && name[|name| - 1] != '/' {
      BehindSlash(name[..|name| - 1]);
    }
  }
}
