/**
 File trees as the directory walker sees them, and their recursive traversal: the order of siblings, and how often
 every path is visited.
 */
module FtsTree {
  import opened Names

  const FTS_D: nat := 1
  const FTS_DNR: nat := 4
  const FTS_DOT: nat := 5
  const FTS_DP: nat := 6
  const FTS_F: nat := 8
  const FTS_INIT: nat := 9

  /** What fts_stat says of anything that is not a directory to walk. */
  type LeafInfo = i: nat | i !in {FTS_D, FTS_DNR, FTS_DOT, FTS_DP, FTS_INIT} witness FTS_F

  /** No entry has an empty name; fts_open refuses one, and readdir gives none. */
  type Name = s: string | |s| > 0 witness "."

  /** A file tree; `skip` says whether the caller skips the directory when it sees it. */
  datatype Tree =
    | Leaf(name: Name, info: LeafInfo)
    | Dir(name: Name, dev: nat, readable: bool, entries: seq<Tree>, skip: bool)

  /** The options that matter here: FTS_SEEDOT, FTS_XDEV, and whether a comparison function is given. */
  datatype Options = Options(seedot: bool, xdev: bool, sorted: bool)

  /** What the caller sees of an entry. */
  datatype Visit = Visit(info: nat, path: string, name: string)

  // ---------------------------------------------------------------- lists of entries

  predicate IsDot(name: string) {
    name == "." || name == ".."
  }

  function Depth(t: Tree): nat {
    match t
    case Leaf(_, _) => 0
    case Dir(_, _, _, entries, _) => 1 + DepthAll(entries)
  }

  function DepthAll(ts: seq<Tree>): nat {
    if |ts| == 0 then 0
    else
      var a, b := Depth(ts[0]), DepthAll(ts[1..]);
      if a > b then a else b
  }

  /** The entries of a directory that are looked at. */
  function Listed(o: Options, ts: seq<Tree>): (r: seq<Tree>)
    ensures DepthAll(r) <= DepthAll(ts)
  {
    if |ts| == 0 then []
    else if !o.seedot && IsDot(ts[0].name) then Listed(o, ts[1..])
    else [ts[0]] + Listed(o, ts[1..])
  }

  function Insert(t: Tree, ts: seq<Tree>): (r: seq<Tree>)
    ensures DepthAll(r) <= if Depth(t) > DepthAll(ts) then Depth(t) else DepthAll(ts)
  {
    if |ts| == 0 then [t]
    else if Less(ts[0].name, t.name) then [ts[0]] + Insert(t, ts[1..])
    else [t] + ts
  }

  /** qsort by name. */
  function Sorted(ts: seq<Tree>): (r: seq<Tree>)
    ensures DepthAll(r) <= DepthAll(ts)
  {
    if |ts| == 0 then [] else Insert(ts[0], Sorted(ts[1..]))
  }

  /** fts_sort, if there is a comparison function. */
  function Order(o: Options, ts: seq<Tree>): (r: seq<Tree>)
    ensures DepthAll(r) <= DepthAll(ts)
  {
    if o.sorted then Sorted(ts) else ts
  }

  /** The children that a directory is found to have. */
  function Children(o: Options, t: Tree): (r: seq<Tree>)
    requires t.Dir?
    ensures DepthAll(r) < Depth(t)
  {
    Order(o, Listed(o, t.entries))
  }

  // ---------------------------------------------------------------- the traversal

  function StatInfo(t: Tree): nat {
    match t
    case Leaf(_, info) => info
    case Dir(name, _, _, _, _) => if IsDot(name) then FTS_DOT else FTS_D
  }

  /** The path of an entry; the root "/" does not double its slash. */
  function Join(path: string, name: Name): string {
    (if path == "/" then "" else path) + "/" + name
  }

  /** A directory and all below it, or a leaf. */
  function Visits(o: Options, dev: nat, t: Tree, info: nat, path: string, name: string): (vs: seq<Visit>)
    ensures 0 < |vs|
    decreases Depth(t), 1, 0
  {
    [Visit(info, path, name)] + if t.Dir? && info == FTS_D then Below(o, dev, t, path, name) else []
  }

  /** What follows the first visit of a directory. */
  function Below(o: Options, dev: nat, t: Tree, path: string, name: string): (vs: seq<Visit>)
    requires t.Dir?
    ensures 0 < |vs|
    decreases Depth(t), 0, 0
  {
    if t.skip || (o.xdev && t.dev != dev) then [Visit(FTS_DP, path, name)]
    else if !t.readable then [Visit(FTS_DNR, path, name)]
    else AllVisits(o, dev, Children(o, t), path) + [Visit(FTS_DP, path, name)]
  }

  /** Siblings, one after the other. */
  function AllVisits(o: Options, dev: nat, ts: seq<Tree>, path: string): seq<Visit>
    decreases DepthAll(ts), 2, |ts|
  {
    if |ts| == 0 then []
    else Visits(o, dev, ts[0], StatInfo(ts[0]), Join(path, ts[0].name), ts[0].name) + AllVisits(o, dev, ts[1..], path)
  }

  /** The last component of a root's name; a trailing slash leaves it empty, and "/" stays. */
  function Basename(name: string): string {
    if name == "/" then name else AfterSlash(name)
  }

  function AfterSlash(name: string): string {
    if |name| == 0 || name[|name| - 1] == '/' then [] else AfterSlash(name[..|name| - 1]) + [name[|name| - 1]]
  }

  /** Roots are walked even if their name is "." or "..". */
  function RootInfo(t: Tree): nat {
    if t.Dir? then FTS_D else t.info
  }

  function DevOf(t: Tree): nat {
    if t.Dir? then t.dev else 0
  }

  function RootVisits(o: Options, ts: seq<Tree>): seq<Visit> {
    if |ts| == 0 then []
    else Visits(o, DevOf(ts[0]), ts[0], RootInfo(ts[0]), ts[0].name, Basename(ts[0].name)) + RootVisits(o, ts[1..])
  }

  /** The recursive traversal of the trees given to fts_open. */
  function Traversal(o: Options, roots: seq<Tree>): seq<Visit> {
    RootVisits(o, Order(o, if o.sorted then Reversed(roots) else roots))
  }

  /** With a comparison function the roots are linked in front of each other. */
  function Reversed(ts: seq<Tree>): seq<Tree> {
    if |ts| == 0 then [] else Reversed(ts[1..]) + [ts[0]]
  }

  // ---------------------------------------------------------------- the order of siblings

  ghost predicate Rising(ts: seq<Tree>) {
    forall i, j :: 0 <= i < j < |ts| ==> !Less(ts[j].name, ts[i].name)
  }

  ghost predicate DistinctNames(ts: seq<Tree>) {
    forall i, j :: 0 <= i < j < |ts| ==> ts[i].name != ts[j].name
  }

  lemma {:induction false} InsertHas(t: Tree, ts: seq<Tree>)
    ensures multiset(Insert(t, ts)) == multiset(ts)[t := multiset(ts)[t] + 1]
  {
    if |ts| > 0 {
      assert ts == [ts[0]] + ts[1..];
      InsertHas(t, ts[1..]);
    }
  }

  lemma {:induction false} InsertRises(t: Tree, ts: seq<Tree>)
    requires Rising(ts)
    ensures Rising(Insert(t, ts))
  {
    hide Less;
    if |ts| > 0 {
      LessTotal(ts[0].name, t.name);
      if Less(ts[0].name, t.name) {
        InsertRises(t, ts[1..]);
        InsertHas(t, ts[1..]);
        forall x | x in Insert(t, ts[1..]) ensures !Less(x.name, ts[0].name) {
          assert x in multiset(Insert(t, ts[1..]));
        }
      } else {
        forall k | 0 <= k < |ts| ensures !Less(ts[k].name, t.name) {
          LessTransitive(t.name, ts[0].name, ts[k].name);
        }
      }
    }
  }

  /** Sorting gives the same entries, in the order of their names. */
  lemma {:induction false} SortedIsSorted(ts: seq<Tree>)
    ensures Rising(Sorted(ts)) && multiset(Sorted(ts)) == multiset(ts)
  {
    if |ts| > 0 {
      SortedIsSorted(ts[1..]);
      InsertRises(ts[0], Sorted(ts[1..]));
      InsertHas(ts[0], Sorted(ts[1..]));
      assert ts == [ts[0]] + ts[1..];
    }
  }

  /** The entry with the least name comes first. */
  lemma LeastFirst(xs: seq<Tree>, ys: seq<Tree>)
    requires multiset(xs) == multiset(ys) && Rising(xs) && Rising(ys) && DistinctNames(xs) && xs != [] && ys != []
    ensures xs[0] == ys[0]
  {
    assert xs[0] in multiset(ys) && ys[0] in multiset(xs);
    var j :| 0 <= j < |xs| && xs[j] == ys[0];
    LessTotal(xs[0].name, ys[0].name);
  }

  lemma RestSame(xs: seq<Tree>, ys: seq<Tree>)
    requires multiset(xs) == multiset(ys) && xs != [] && ys != [] && xs[0] == ys[0]
    ensures multiset(xs[1..]) == multiset(ys[1..])
  {
    assert xs == [xs[0]] + xs[1..] && ys == [ys[0]] + ys[1..];
    assert multiset(xs[1..]) == multiset(xs) - multiset{xs[0]};
    assert multiset(ys[1..]) == multiset(ys) - multiset{ys[0]};
  }

  /** With distinct names there is one sorted order, whatever qsort does. */
  lemma {:induction false} OneSortedOrder(xs: seq<Tree>, ys: seq<Tree>)
    requires multiset(xs) == multiset(ys) && Rising(xs) && Rising(ys) && DistinctNames(xs)
    ensures xs == ys
  {
    assert |multiset(xs)| == |xs| && |multiset(ys)| == |ys|;
    if |xs| > 0 {
      LeastFirst(xs, ys);
      RestSame(xs, ys);
      OneSortedOrder(xs[1..], ys[1..]);
      assert xs == [xs[0]] + xs[1..] && ys == [ys[0]] + ys[1..];
    }
  }

  // ---------------------------------------------------------------- how often a path is visited

  /** The names in a directory are distinct and have no slash, all the way down. */
  ghost predicate Proper(t: Tree) {
    t.Dir? ==>
      && DistinctNames(t.entries)
      && forall i :: 0 <= i < |t.entries| ==> '/' !in t.entries[i].name && Proper(t.entries[i])
  }

  ghost predicate AllProper(ts: seq<Tree>) {
    DistinctNames(ts) && forall i :: 0 <= i < |ts| ==> '/' !in ts[i].name && Proper(ts[i])
  }

  lemma {:induction false} ListedHas(o: Options, ts: seq<Tree>)
    ensures forall x :: x in Listed(o, ts) ==> x in ts
    ensures DistinctNames(ts) ==> DistinctNames(Listed(o, ts))
  {
    if |ts| > 0 {
      ListedHas(o, ts[1..]);
      if DistinctNames(ts) {
        var r := Listed(o, ts[1..]);
        forall k | 0 <= k < |r| ensures r[k].name != ts[0].name {
          assert r[k] in ts[1..];
        }
      }
    }
  }

  lemma {:induction false} SortedDistinct(ts: seq<Tree>)
    requires DistinctNames(ts)
    ensures DistinctNames(Sorted(ts))
  {
    if |ts| > 0 {
      SortedDistinct(ts[1..]);
      SortedIsSorted(ts[1..]);
      forall x | x in Sorted(ts[1..]) ensures x.name != ts[0].name {
        assert x in multiset(ts[1..]);
      }
      InsertDistinct(ts[0], Sorted(ts[1..]));
    }
  }

  lemma {:induction false} InsertDistinct(t: Tree, ts: seq<Tree>)
    requires DistinctNames(ts) && forall x :: x in ts ==> x.name != t.name
    ensures DistinctNames(Insert(t, ts))
  {
    hide Less;
    if |ts| > 0 && Less(ts[0].name, t.name) {
      InsertDistinct(t, ts[1..]);
      InsertHas(t, ts[1..]);
      forall x | x in Insert(t, ts[1..]) ensures x.name != ts[0].name {
        assert x in multiset(Insert(t, ts[1..]));
      }
      DistinctCons(ts[0], Insert(t, ts[1..]));
    } else {
      DistinctCons(t, ts);
    }
  }

  lemma DistinctCons(t: Tree, ts: seq<Tree>)
    requires DistinctNames(ts) && forall x :: x in ts ==> x.name != t.name
    ensures DistinctNames([t] + ts)
  {}

  lemma ChildrenProper(o: Options, t: Tree)
    requires Proper(t) && t.Dir?
    ensures AllProper(Children(o, t))
  {
    var ls := Listed(o, t.entries);
    ListedHas(o, t.entries);
    SortedDistinct(ls);
    SortedIsSorted(ls);
    forall x | x in Children(o, t) ensures '/' !in x.name && Proper(x) {
      assert x in multiset(ls);
      assert x in t.entries;
    }
  }

  /** The visits of one path, by what they say. */
  function At(vs: seq<Visit>, q: string): seq<nat> {
    if |vs| == 0 then [] else (if vs[0].path == q then [vs[0].info] else []) + At(vs[1..], q)
  }

  lemma AtStep(vs: seq<Visit>, q: string)
    ensures |vs| == 0 ==> At(vs, q) == []
    ensures |vs| > 0 ==> At(vs, q) == (if vs[0].path == q then [vs[0].info] else []) + At(vs[1..], q)
  {}

  lemma {:induction false} AtConcat(a: seq<Visit>, b: seq<Visit>, q: string)
    ensures At(a + b, q) == At(a, q) + At(b, q)
  {
    hide At;
    AtStep(a, q);
    if |a| == 0 {
      assert a + b == b;
    } else {
      AtConcat(a[1..], b, q);
      AtStep(a + b, q);
      assert (a + b)[0] == a[0] && (a + b)[1..] == a[1..] + b;
    }
  }

  /** `q` is the path or a path below it. */
  predicate Under(path: string, q: string) {
    q == path || ((if path == "/" then "" else path) + "/") <= q
  }

  /** A path is below one of several siblings at most. */
  lemma SiblingsApart(path: string, m: Name, n: Name, q: string)
    requires '/' !in m && '/' !in n && Under(Join(path, m), q) && Under(Join(path, n), q)
    ensures m == n
  {
    var p := (if path == "/" then "" else path) + "/";
    var rest := q[|p|..];
    assert Join(path, m) == p + m && Join(path, n) == p + n;
    Component(m, rest);
    Component(n, rest);
  }

  /** The name at the front of what follows the parent's path. */
  function Front(s: string): string {
    if |s| == 0 || s[0] == '/' then [] else [s[0]] + Front(s[1..])
  }

  lemma {:induction false} Component(n: string, rest: string)
    requires '/' !in n && (rest == n || (n + "/") <= rest)
    ensures Front(rest) == n
  {
    if |n| > 0 {
      assert n == [n[0]] + n[1..];
      Component(n[1..], rest[1..]);
    }
  }

  /** The two visits of a directory, or the one of anything else. */
  ghost predicate OneEntry(infos: seq<nat>) {
    infos == [FTS_D, FTS_DP] || infos == [FTS_D, FTS_DNR]
    || (|infos| == 1 && infos[0] !in {FTS_D, FTS_DP, FTS_DNR})
  }

  lemma UnderJoin(path: string, n: Name, q: string)
    requires Under(Join(path, n), q)
    ensures q != path && Under(path, q)
  {
    var p := (if path == "/" then "" else path) + "/";
    assert Join(path, n) == p + n;
  }

  /** A tree is visited below its path alone; its path as one entry is, and any other path at most. */
  lemma {:induction false} VisitsOnce(o: Options, dev: nat, t: Tree, info: nat, path: string, name: string, q: string)
    requires Proper(t) && if t.Dir? then info in {FTS_D, FTS_DOT} else info == t.info
    ensures var a := At(Visits(o, dev, t, info, path, name), q);
            && (!Under(path, q) ==> a == []) && (q == path ==> OneEntry(a)) && (a == [] || OneEntry(a))
    decreases Depth(t), 1, 0
  {
    var vs := Visits(o, dev, t, info, path, name);
    if t.Dir? && info == FTS_D {
      BelowOnce(o, dev, t, path, name, q);
      AtConcat([Visit(info, path, name)], Below(o, dev, t, path, name), q);
    }
  }

  lemma {:induction false} BelowOnce(o: Options, dev: nat, t: Tree, path: string, name: string, q: string)
    requires Proper(t) && t.Dir?
    ensures var a := At(Below(o, dev, t, path, name), q);
            if q == path then a == [FTS_DP] || a == [FTS_DNR]
            else (a == [] || OneEntry(a)) && (!Under(path, q) ==> a == [])
    decreases Depth(t), 0, 1
  {
    if !(t.skip || (o.xdev && t.dev != dev)) && t.readable {
      var ts := Children(o, t);
      ChildrenProper(o, t);
      AllOnce(o, dev, ts, path, q);
      if At(AllVisits(o, dev, ts, path), q) != [] {
        AllUnder(o, dev, ts, path, q);
      }
      AtConcat(AllVisits(o, dev, ts, path), [Visit(FTS_DP, path, name)], q);
    }
  }

  lemma {:induction false} AllOnce(o: Options, dev: nat, ts: seq<Tree>, path: string, q: string)
    requires AllProper(ts)
    ensures var a := At(AllVisits(o, dev, ts, path), q);
            && (a == [] || OneEntry(a))
            && (a != [] ==> exists i :: 0 <= i < |ts| && Under(Join(path, ts[i].name), q))
    decreases DepthAll(ts), 2, |ts|
  {
    hide Visits, At, OneEntry, Join, Under, Proper, StatInfo;
    if |ts| == 0 {
      AtStep([], q);
    } else {
      var t, p := ts[0], Join(path, ts[0].name);
      StatOf(t);
      VisitsOnce(o, dev, t, StatInfo(t), p, t.name, q);
      AllOnce(o, dev, ts[1..], path, q);
      AtConcat(Visits(o, dev, t, StatInfo(t), p, t.name), AllVisits(o, dev, ts[1..], path), q);
      var x, y := At(Visits(o, dev, t, StatInfo(t), p, t.name), q), At(AllVisits(o, dev, ts[1..], path), q);
      assert x + [] == x && [] + y == y;
      if y != [] {
        var i :| 0 <= i < |ts| - 1 && Under(Join(path, ts[1..][i].name), q);
        assert ts[i + 1] == ts[1..][i];
        if Under(p, q) {
          SiblingsApart(path, t.name, ts[i + 1].name, q);
        }
      } else if x != [] {
        assert Under(Join(path, ts[0].name), q);
      }
    }
  }

  lemma StatOf(t: Tree)
    ensures if t.Dir? then StatInfo(t) in {FTS_D, FTS_DOT} else StatInfo(t) == t.info
  {}

  /** What is visited below a path is not that path, nor outside it. */
  lemma AllUnder(o: Options, dev: nat, ts: seq<Tree>, path: string, q: string)
    requires AllProper(ts) && At(AllVisits(o, dev, ts, path), q) != []
    ensures q != path && Under(path, q)
    decreases DepthAll(ts), 3, |ts|
  {
    AllOnce(o, dev, ts, path, q);
    var i :| 0 <= i < |ts| && Under(Join(path, ts[i].name), q);
    UnderJoin(path, ts[i].name, q);
  }

  /**
   In the walk of one root every path is visited as one entry or not at all: a directory once before and once after
   what is below it, anything else once.
   */
  lemma EachPathOnce(o: Options, root: Tree, q: string)
    requires Proper(root)
    ensures var a := At(Traversal(o, [root]), q);
            (a == [] || OneEntry(a)) && (q == root.name ==> OneEntry(a)) && (!Under(root.name, q) ==> a == [])
  {
    var vs := Visits(o, DevOf(root), root, RootInfo(root), root.name, Basename(root.name));
    VisitsOnce(o, DevOf(root), root, RootInfo(root), root.name, Basename(root.name), q);
    OneRoot(o, root);
    assert vs + [] == vs;
  }

  lemma OneRoot(o: Options, root: Tree)
    ensures Traversal(o, [root])
            == Visits(o, DevOf(root), root, RootInfo(root), root.name, Basename(root.name)) + []
  {
    var rs, none: seq<Tree> := [root], [];
    assert rs[1..] == none && Reversed(none) == none && Sorted(none) == none && none + rs == rs;
    assert Reversed(rs) == rs && Sorted(rs) == rs;
    hide Visits;
    assert RootVisits(o, none) == [];
  }

  /** Between the two visits of a directory are the visits of what is below it, and of nothing else. */
  lemma {:induction false} Nested(o: Options, dev: nat, t: Tree, info: nat, path: string, name: string, i: nat)
    requires Proper(t) && info == FTS_D && t.Dir?
    ensures var vs := Visits(o, dev, t, info, path, name);
            && 2 <= |vs| && vs[0] == Visit(FTS_D, path, name) && vs[|vs| - 1].path == path
            && vs[|vs| - 1].info in {FTS_DP, FTS_DNR}
            && (t.skip ==> |vs| == 2)
            && (0 < i < |vs| - 1 ==> vs[i].path != path && Under(path, vs[i].path))
  {
    var vs := Visits(o, dev, t, info, path, name);
    if 0 < i < |vs| - 1 {
      var ts := Children(o, t);
      var all := AllVisits(o, dev, ts, path);
      ChildrenProper(o, t);
      assert vs[i] == all[i - 1];
      AtHas(all, i - 1);
      AllUnder(o, dev, ts, path, vs[i].path);
    }
  }

  lemma {:induction false} AtHas(vs: seq<Visit>, i: nat)
    requires i < |vs|
    ensures At(vs, vs[i].path) != []
  {
    if i > 0 {
      AtHas(vs[1..], i - 1);
    }
  }
}
