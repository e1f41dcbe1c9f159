/**
 The directory walker: `fts_open`, `fts_read` and `fts_set` over an abstract file tree. A walk is made by one
 call after the other; between two calls all there is of it is the current entry, the entries linked behind it and
 behind its parents, and one path buffer.
 */
module Fts {
  import opened FtsTree
  import opened Wrappers

  const FTS_AGAIN: nat := 1
  const FTS_FOLLOW: nat := 2
  const FTS_NOINSTR: nat := 3
  const FTS_SKIP: nat := 4

  // ---------------------------------------------------------------- the walk, one call at a time

  /** FTSENT: `links` below are the entries behind it on its level. */
  datatype Ent = Ent(tree: Tree, name: string, info: nat, pathlen: nat, level: nat)

  datatype Parent = Parent(ent: Ent, links: seq<Ent>)

  /** FTS between two calls; the innermost parent is the last one, and `path` is the path buffer up to its NUL. */
  datatype Pos = Pos(cur: Option<Ent>, links: seq<Ent>, parents: seq<Parent>, path: string, dev: nat)

  /** NAPPEND: where a slash and a name go behind the path of an entry. */
  function Append(e: Ent, path: string): nat {
    if e.level == 0 && e.pathlen == 1 && |path| > 0 && path[0] == '/' then 0 else e.pathlen
  }

  /** The entries that fts_build links up for directory `cur`. */
  function Built(o: Options, cur: Ent, path: string): seq<Ent>
    requires cur.tree.Dir?
  {
    Ents(Children(o, cur.tree), Append(cur, path) + 1, cur.level + 1)
  }

  function Ents(ts: seq<Tree>, len: nat, level: nat): seq<Ent> {
    seq(|ts|, i requires 0 <= i < |ts| => Ent(ts[i], ts[i].name, StatInfo(ts[i]), len + |ts[i].name|, level))
  }

  function RootEnts(ts: seq<Tree>): seq<Ent> {
    seq(|ts|, i requires 0 <= i < |ts| => Ent(ts[i], ts[i].name, RootInfo(ts[i]), 0, 0))
  }

  /** fts_open: a dummy entry in front of the roots. */
  function Opened(o: Options, roots: seq<Tree>): Pos {
    var rs := Order(o, if o.sorted then Reversed(roots) else roots);
    Pos(Some(Ent(Leaf(".", FTS_F), "", FTS_INIT, 0, 0)), RootEnts(rs), [], "", 0)
  }

  function See(p: Ent, path: string): Option<Visit> {
    Some(Visit(p.info, path, p.name))
  }

  /** An entry becomes the current one, with its name behind the path of its parent. */
  function Step(s: Pos, p: Ent, links: seq<Ent>, parents: seq<Parent>): Pos
    requires parents != []
  {
    var n := Append(parents[|parents| - 1].ent, s.path);
    Pos(Some(p), links, parents, (if n <= |s.path| then s.path[..n] else s.path) + "/" + p.name, s.dev)
  }

  /** fts_read, given the caller's instruction for the current entry. */
  function ReadFrom(o: Options, s: Pos, instr: nat): (Pos, Option<Visit>) {
    if s.cur.None? then (s, None)
    else if s.cur.value.info == FTS_D && s.cur.value.tree.Dir? then ReadBelow(o, s, s.cur.value, instr)
    else ReadNext(s)
  }

  function ReadBelow(o: Options, s: Pos, p: Ent, instr: nat): (Pos, Option<Visit>)
    requires p.tree.Dir?
  {
    if instr == FTS_SKIP || (o.xdev && p.tree.dev != s.dev) then
      (s.(cur := Some(p.(info := FTS_DP))), See(p.(info := FTS_DP), s.path))
    else if !p.tree.readable then
      (s.(cur := Some(p.(info := FTS_DNR))), See(p.(info := FTS_DNR), s.path))
    else
      var kids := Built(o, p, s.path);
      if kids == [] then (s.(cur := Some(p.(info := FTS_DP))), See(p.(info := FTS_DP), s.path))
      else
        var r := Step(s, kids[0], kids[1..], s.parents + [Parent(p, s.links)]);
        (r, See(kids[0], r.path))
  }

  function ReadNext(s: Pos): (Pos, Option<Visit>) {
    if s.links != [] then
      var p := s.links[0];
      if s.parents == [] then
        var r := Load(s, p);
        (r, See(r.cur.value, r.path))
      else
        var r := Step(s, p, s.links[1..], s.parents);
        (r, See(p, r.path))
    else if s.parents == [] then (s.(cur := None), None)
    else
      var up := s.parents[|s.parents| - 1];
      var p := up.ent.(info := FTS_DP);
      var path := if p.pathlen <= |s.path| then s.path[..p.pathlen] else s.path;
      (Pos(Some(p), up.links, s.parents[..|s.parents| - 1], path, s.dev), See(p, path))
  }

  /** fts_load: the next root. */
  function Load(s: Pos, p: Ent): (r: Pos)
    requires s.links != []
    ensures r.cur.Some?
  {
    var q := p.(name := Basename(p.name), pathlen := |p.name|);
    Pos(Some(q), s.links[1..], s.parents, p.name, DevOf(p.tree))
  }

  class Walker {
    const o: Options
    var cur: Option<Ent>
    var instr: nat
    var links: seq<Ent>
    var parents: seq<Parent>
    var path: string
    var dev: nat

    function State(): Pos
      reads this
    {
      Pos(cur, links, parents, path, dev)
    }

    /** fts_open */
    constructor (roots: seq<Tree>, options: Options)
      requires roots != []
      ensures State() == Opened(options, roots) && o == options && instr == FTS_NOINSTR
    {
      var list: seq<Tree> := [];
      var i := 0;
      while i < |roots|
        invariant i <= |roots| && list == if options.sorted then Reversed(roots[..i]) else roots[..i]
      {
        if options.sorted {
          ReversedMore(roots[..i], roots[i]);
          list := [roots[i]] + list;
        } else {
          list := list + [roots[i]];
        }
        assert roots[..i + 1] == roots[..i] + [roots[i]];
        i := i + 1;
      }
      assert roots[..i] == roots;
      if options.sorted && 1 < |roots| {
        list := Sorted(list);
      }
      OneIsSorted(list);
      ReversedLength(roots);
      o := options;
      cur := Some(Ent(Leaf(".", FTS_F), "", FTS_INIT, 0, 0));
      instr := FTS_NOINSTR;
      links := RootEnts(list);
      parents, path, dev := [], "", 0;
    }

    /** fts_set, for the current entry. */
    method Set(i: nat) returns (ok: bool)
      modifies this`instr
      ensures ok <==> i in {0, FTS_AGAIN, FTS_FOLLOW, FTS_NOINSTR, FTS_SKIP}
      ensures instr == if ok then i else old(instr)
    {
      if i != 0 && i != FTS_AGAIN && i != FTS_FOLLOW && i != FTS_NOINSTR && i != FTS_SKIP {
        return false;
      }
      instr := i;
      return true;
    }

    /** The loop of fts_build: entries are linked up in directory order. */
    method List(es: seq<Tree>) returns (trees: seq<Tree>)
      ensures trees == Listed(o, es)
    {
      hide Listed;
      trees := [];
      var i := 0;
      ListedStep(o, es, 0);
      while i < |es|
        invariant i <= |es| && trees + Listed(o, es[i..]) == Listed(o, es)
      {
        ListedStep(o, es, i);
        if o.seedot || !IsDot(es[i].name) {
          Regroup(trees, [es[i]], Listed(o, es[i + 1..]));
          trees := trees + [es[i]];
        }
        i := i + 1;
      }
      ListedStep(o, es, i);
    }

    /** The part of fts_build behind opendir. */
    method Build(p: Ent) returns (list: seq<Ent>)
      requires p.tree.Dir?
      ensures list == Built(o, p, path)
    {
      hide Listed, Sorted, Ents, Append;
      var len := Append(p, path) + 1;
      var level := p.level + 1;
      var trees := List(p.tree.entries);
      OneIsSorted(trees);
      if o.sorted && 1 < |trees| {
        trees := Sorted(trees);
      }
      list := Ents(trees, len, level);
    }

    /** fts_read */
    method Read() returns (v: Option<Visit>)
      requires cur.Some? && cur.value.info == FTS_D ==> cur.value.tree.Dir?
      requires cur.Some? ==> instr != FTS_AGAIN && instr != FTS_FOLLOW
      modifies this
      ensures (State(), v) == ReadFrom(o, old(State()), old(instr))
      ensures old(cur).Some? ==> instr == FTS_NOINSTR
    {
      if cur.None? {
        return None;
      }
      var p := cur.value;
      var i := instr;
      instr := FTS_NOINSTR;
      if p.info == FTS_D {
        if i == FTS_SKIP || (o.xdev && p.tree.dev != dev) {
          p := p.(info := FTS_DP);
          cur := Some(p);
          return See(p, path);
        }
        if !p.tree.readable {
          p := p.(info := FTS_DNR);
          cur := Some(p);
          return See(p, path);
        }
        var child := Build(p);
        if child == [] {
          p := p.(info := FTS_DP);
          cur := Some(p);
          return See(p, path);
        }
        parents := parents + [Parent(p, links)];
        Enter(child[0], child[1..]);
        return See(child[0], path);
      }
      if links != [] {
        p := links[0];
        if parents == [] {
          p := p.(name := Basename(p.name), pathlen := |p.name|);
          cur, links, path, dev := Some(p), links[1..], links[0].name, DevOf(p.tree);
          return See(p, path);
        }
        Enter(p, links[1..]);
        return See(p, path);
      }
      if parents == [] {
        cur := None;
        return None;
      }
      var up := parents[|parents| - 1];
      p := up.ent.(info := FTS_DP);
      if p.pathlen <= |path| {
        path := path[..p.pathlen];
      }
      cur, links, parents := Some(p), up.links, parents[..|parents| - 1];
      v := See(p, path);
    }

    /** An entry becomes the current one: its name goes behind the path of its parent. */
    method Enter(p: Ent, behind: seq<Ent>)
      requires parents != []
      modifies this
      ensures State() == Step(old(State()), p, behind, old(parents)) && instr == old(instr)
    {
      var n := Append(parents[|parents| - 1].ent, path);
      if n <= |path| {
        path := path[..n];
      }
      path := path + "/" + p.name;
      cur, links := Some(p), behind;
    }
  }

  lemma {:induction false} ReversedMore(ts: seq<Tree>, t: Tree)
    ensures Reversed(ts + [t]) == [t] + Reversed(ts)
  {
    if |ts| == 0 {
      assert ts + [t] == [t] && [t][1..] == ts;
    } else {
      ReversedMore(ts[1..], t);
      assert (ts + [t])[1..] == ts[1..] + [t];
    }
  }

  lemma {:induction false} ReversedLength(ts: seq<Tree>)
    ensures |Reversed(ts)| == |ts|
  {
    if |ts| > 0 {
      ReversedLength(ts[1..]);
    }
  }

  lemma ListedStep(o: Options, ts: seq<Tree>, i: nat)
    requires i <= |ts|
    ensures ts[0..] == ts
    ensures Listed(o, ts[i..])
            == if i == |ts| then []
               else (if !o.seedot && IsDot(ts[i].name) then [] else [ts[i]]) + Listed(o, ts[i + 1..])
  {
    assert i < |ts| ==> ts[i..][0] == ts[i] && ts[i..][1..] == ts[i + 1..];
  }

  lemma Regroup(a: seq<Tree>, b: seq<Tree>, c: seq<Tree>)
    ensures a + b + c == a + (b + c) && [] + c == c
  {}

  lemma OneIsSorted(ts: seq<Tree>)
    ensures |ts| <= 1 ==> Sorted(ts) == ts
  {
    if |ts| == 1 {
      assert ts[1..] == [] && ts == [ts[0]];
    }
  }

  // ---------------------------------------------------------------- what is still to be read

  function Trees(es: seq<Ent>): (ts: seq<Tree>)
    ensures |ts| == |es|
  {
    seq(|es|, i requires 0 <= i < |es| => es[i].tree)
  }

  /** The path of the innermost parent. */
  function PathAt(parents: seq<Parent>): (r: string)
    requires parents != []
    ensures |r| > 0
  {
    var e := parents[|parents| - 1].ent;
    if |parents| == 1 then e.tree.name else Join(PathAt(parents[..|parents| - 1]), e.tree.name)
  }

  /** The path of an entry below these parents. */
  function PathBelow(parents: seq<Parent>, t: Tree): (r: string)
    ensures |r| > 0
  {
    if parents == [] then t.name else Join(PathAt(parents), t.name)
  }

  /** The siblings to come, the last visit of the parent, and so on upwards. */
  function Upwards(o: Options, dev: nat, links: seq<Ent>, parents: seq<Parent>): seq<Visit>
    decreases |parents|
  {
    if parents == [] then RootVisits(o, Trees(links))
    else
      var up := parents[|parents| - 1];
      AllVisits(o, dev, Trees(links), PathAt(parents)) + [Visit(FTS_DP, PathAt(parents), up.ent.name)]
        + Upwards(o, dev, up.links, parents[..|parents| - 1])
  }

  function Rest(o: Options, s: Pos): seq<Visit> {
    if s.cur.None? then []
    else
      var e := s.cur.value;
      (if e.info == FTS_D && e.tree.Dir? then Below(o, s.dev, e.tree, s.path, e.name) else [])
        + Upwards(o, s.dev, s.links, s.parents)
  }

  ghost predicate LinksOk(links: seq<Ent>, parents: seq<Parent>) {
    if parents == [] then links == RootEnts(Trees(links))
    else
      var e := parents[|parents| - 1].ent;
      links == Ents(Trees(links), Append(e, PathAt(parents)) + 1, |parents|)
  }

  ghost predicate ParentsOk(parents: seq<Parent>)
    decreases |parents|
  {
    parents != [] ==>
      var up := parents[|parents| - 1];
      var before := parents[..|parents| - 1];
      && ParentsOk(before) && LinksOk(up.links, before)
      && up.ent.tree.Dir? && up.ent.level == |before| && up.ent.pathlen == |PathAt(parents)|
      && (before != [] ==> up.ent.name == up.ent.tree.name)
  }

  /** What holds between two calls; above all, the path buffer holds the joined names from the root down. */
  ghost predicate Valid(s: Pos) {
    && ParentsOk(s.parents) && LinksOk(s.links, s.parents)
    && (s.cur.None? ==> s.parents == [])
    && (s.cur.Some? ==>
          var e := s.cur.value;
          if e.info == FTS_INIT then s.parents == []
          else
            && s.path == PathBelow(s.parents, e.tree) && e.pathlen == |s.path| && e.level == |s.parents|
            && (e.info == FTS_D ==> e.tree.Dir?)
            && (s.parents != [] ==> e.name == e.tree.name))
  }

  /** The caller skips a directory at its first visit, if it is marked so. */
  ghost predicate Told(s: Pos, instr: nat) {
    s.cur.Some? && s.cur.value.info == FTS_D && s.cur.value.tree.Dir? ==> (instr == FTS_SKIP <==> s.cur.value.tree.skip)
  }

  lemma OpenedIsValid(o: Options, roots: seq<Tree>)
    ensures Valid(Opened(o, roots)) && Rest(o, Opened(o, roots)) == Traversal(o, roots)
  {
    var rs := Order(o, if o.sorted then Reversed(roots) else roots);
    assert Trees(RootEnts(rs)) == rs;
  }

  /** Where the code appends is where the traversal joins. */
  lemma StepJoins(s: Pos, p: Ent, links: seq<Ent>, parents: seq<Parent>)
    requires parents != [] && ParentsOk(parents) && p.name == p.tree.name
    requires PathAt(parents) <= s.path
    ensures Step(s, p, links, parents).path == Join(PathAt(parents), p.tree.name)
    ensures |Join(PathAt(parents), p.tree.name)| == Append(parents[|parents| - 1].ent, PathAt(parents)) + 1 + |p.name|
  {
    var e := parents[|parents| - 1].ent;
    assert |parents| > 1 ==> |PathAt(parents)| > 1;
  }

  /** A call gives the first of what is still to be read and leaves the rest; at the end it gives nothing. */
  ghost predicate Gives(o: Options, s: Pos, r: Pos, v: Option<Visit>) {
    && Valid(r) && (r.cur.Some? ==> r.cur.value.info != FTS_INIT)
    && if v.Some? then Rest(o, s) == [v.value] + Rest(o, r) else Rest(o, s) == Rest(o, r) == [] && r.cur.None?
  }

  /** The directory is not entered: its second visit follows at once. */
  lemma GivesSecondVisit(o: Options, s: Pos, info: nat)
    requires Valid(s) && s.cur.Some? && s.cur.value.info == FTS_D && info in {FTS_DP, FTS_DNR}
    requires Below(o, s.dev, s.cur.value.tree, s.path, s.cur.value.name) == [Visit(info, s.path, s.cur.value.name)]
    ensures var e := s.cur.value.(info := info);
            Gives(o, s, s.(cur := Some(e)), See(e, s.path))
  {
    hide Below, Upwards, ParentsOk, LinksOk, PathBelow;
  }

  lemma EntsFirst(ts: seq<Tree>, len: nat, level: nat)
    requires ts != []
    ensures var es := Ents(ts, len, level);
            && es[0] == Ent(ts[0], ts[0].name, StatInfo(ts[0]), len + |ts[0].name|, level)
            && es[1..] == Ents(ts[1..], len, level) && Trees(es) == ts && Trees(es[1..]) == ts[1..]
  {
  }

  lemma TreesRest(es: seq<Ent>)
    requires es != []
    ensures Trees(es)[0] == es[0].tree && Trees(es)[1..] == Trees(es[1..])
  {}

  /** Siblings are read one after the other. */
  lemma UpwardsFirst(o: Options, dev: nat, es: seq<Ent>, parents: seq<Parent>)
    requires parents != [] && es != []
    ensures var t := es[0].tree;
            Upwards(o, dev, es, parents)
            == Visits(o, dev, t, StatInfo(t), Join(PathAt(parents), t.name), t.name) + Upwards(o, dev, es[1..], parents)
  {
    hide Visits, Join, PathAt;
    TreesRest(es);
    var up := parents[|parents| - 1];
    var t := es[0].tree;
    var a, b := Visits(o, dev, t, StatInfo(t), Join(PathAt(parents), t.name), t.name),
      AllVisits(o, dev, Trees(es)[1..], PathAt(parents));
    var c, d := [Visit(FTS_DP, PathAt(parents), up.ent.name)], Upwards(o, dev, up.links, parents[..|parents| - 1]);
    assert AllVisits(o, dev, Trees(es), PathAt(parents)) == a + b;
    assert (a + b) + c + d == a + (b + c + d);
  }

  /** The first of some siblings becomes the current entry. */
  lemma SiblingIsValid(s: Pos, es: seq<Ent>, parents: seq<Parent>)
    requires parents != [] && ParentsOk(parents) && LinksOk(es, parents) && es != [] && PathAt(parents) <= s.path
    ensures Valid(Step(s, es[0], es[1..], parents))
    ensures Step(s, es[0], es[1..], parents).path == Join(PathAt(parents), es[0].tree.name)
    ensures es[0].info == StatInfo(es[0].tree) && es[0].name == es[0].tree.name
  {
    hide ParentsOk, Join, PathAt, Append;
    var e := parents[|parents| - 1].ent;
    EntsFirst(Trees(es), Append(e, PathAt(parents)) + 1, |parents|);
    TreesRest(es);
    StepJoins(s, es[0], es[1..], parents);
  }

  lemma StatInfoIsNotInit(t: Tree)
    ensures StatInfo(t) != FTS_INIT
  {}

  lemma GivesSibling(o: Options, s: Pos, es: seq<Ent>, parents: seq<Parent>)
    requires parents != [] && ParentsOk(parents) && LinksOk(es, parents) && es != [] && PathAt(parents) <= s.path
    ensures var r := Step(s, es[0], es[1..], parents);
            && Valid(r) && r.cur.value.info != FTS_INIT
            && Upwards(o, s.dev, es, parents) == [Visit(es[0].info, r.path, es[0].name)] + Rest(o, r)
  {
    hide Valid, ParentsOk, LinksOk, Join, PathAt, Upwards, Below, StatInfo;
    SiblingIsValid(s, es, parents);
    StatInfoIsNotInit(es[0].tree);
    UpwardsFirst(o, s.dev, es, parents);
  }

  /** The first child of a directory. */
  lemma GivesChild(o: Options, s: Pos)
    requires Valid(s) && s.cur.Some? && s.cur.value.info == FTS_D
    requires var p := s.cur.value; !p.tree.skip && !(o.xdev && p.tree.dev != s.dev) && p.tree.readable
    requires Built(o, s.cur.value, s.path) != []
    ensures var p, kids := s.cur.value, Built(o, s.cur.value, s.path);
            var r := Step(s, kids[0], kids[1..], s.parents + [Parent(p, s.links)]);
            Gives(o, s, r, See(kids[0], r.path))
  {
    var p, kids := s.cur.value, Built(o, s.cur.value, s.path);
    var parents := s.parents + [Parent(p, s.links)];
    assert parents[..|s.parents|] == s.parents;
    assert PathAt(parents) == s.path;
    assert ParentsOk(parents);
    assert Trees(kids) == Children(o, p.tree);
    assert LinksOk(kids, parents);
    GivesSibling(o, s, kids, parents);
    hide Valid, ParentsOk, LinksOk, Join, PathAt, Children, AllVisits, Ents;
  }

  /** The next root. */
  lemma GivesRoot(o: Options, s: Pos)
    requires Valid(s) && s.cur.Some? && s.cur.value.info != FTS_D && s.parents == [] && s.links != []
    ensures var r := Load(s, s.links[0]); Gives(o, s, r, See(r.cur.value, r.path))
  {
    TreesRest(s.links);
    assert s.links[1..] == RootEnts(Trees(s.links[1..]));
  }

  lemma UpwardsNext(o: Options, dev: nat, links: seq<Ent>, parents: seq<Parent>)
    requires links == [] && parents != []
    ensures var n := |parents| - 1;
            Upwards(o, dev, links, parents)
            == [Visit(FTS_DP, PathAt(parents), parents[n].ent.name)] + Upwards(o, dev, parents[n].links, parents[..n])
  {
    hide PathAt, RootVisits;
    assert Trees(links) == [];
  }

  lemma PathOfParent(parents: seq<Parent>)
    requires parents != []
    ensures var n := |parents| - 1; PathAt(parents) == PathBelow(parents[..n], parents[n].ent.tree)
  {
    hide Join;
  }

  /** Going up, the path is cut to that of the parent. */
  lemma ParentIsValid(s: Pos)
    requires Valid(s) && s.cur.Some? && s.cur.value.info != FTS_INIT && s.parents != [] && s.links == []
    ensures var r := ReadNext(s).0; Valid(r) && r.path == PathAt(s.parents)
  {
    hide Join, PathAt, Ents, RootEnts, PathBelow;
    PathIsBelow(s);
    PathOfParent(s.parents);
  }

  /** Up to the parent, for its second visit. */
  lemma GivesParent(o: Options, s: Pos)
    requires Valid(s) && s.cur.Some? && s.cur.value.info != FTS_D && s.parents != [] && s.links == []
    ensures var (r, v) := ReadNext(s); Gives(o, s, r, v)
  {
    hide Valid, PathAt, Upwards, Below;
    InitHasNoParent(s);
    ParentIsValid(s);
    UpwardsNext(o, s.dev, s.links, s.parents);
  }

  lemma InitHasNoParent(s: Pos)
    requires Valid(s) && s.cur.Some? && s.parents != []
    ensures s.cur.value.info != FTS_INIT
  {
    hide ParentsOk, LinksOk;
  }

  lemma PathIsBelow(s: Pos)
    requires Valid(s) && s.cur.Some? && s.cur.value.info != FTS_INIT && s.parents != []
    ensures PathAt(s.parents) <= s.path
  {
  }

  /** Every call of fts_read gives the next visit of the traversal. */
  lemma ReadGives(o: Options, s: Pos, instr: nat)
    requires Valid(s) && Told(s, instr)
    ensures var (r, v) := ReadFrom(o, s, instr); Gives(o, s, r, v)
  {
    if s.cur.None? {
    } else if s.cur.value.info == FTS_D {
      BelowGives(o, s, instr);
    } else if s.links != [] && s.parents == [] {
      GivesRoot(o, s);
    } else if s.links != [] {
      PathIsBelow(s);
      GivesSibling(o, s, s.links, s.parents);
    } else if s.parents != [] {
      GivesParent(o, s);
    } else {
      assert Trees(s.links) == [];
    }
  }

  lemma BelowGives(o: Options, s: Pos, instr: nat)
    requires Valid(s) && Told(s, instr) && s.cur.Some? && s.cur.value.info == FTS_D
    ensures var (r, v) := ReadBelow(o, s, s.cur.value, instr); Gives(o, s, r, v)
  {
    var p := s.cur.value;
    if p.tree.skip || (o.xdev && p.tree.dev != s.dev) {
      GivesSecondVisit(o, s, FTS_DP);
    } else if !p.tree.readable {
      GivesSecondVisit(o, s, FTS_DNR);
    } else if Built(o, p, s.path) == [] {
      assert Children(o, p.tree) == [];
      GivesSecondVisit(o, s, FTS_DP);
    } else {
      GivesChild(o, s);
    }
  }

  // ---------------------------------------------------------------- whole walks

  /** The instruction of a caller that skips the marked directories. */
  function Instruction(s: Pos): nat {
    if s.cur.Some? && s.cur.value.info == FTS_D && s.cur.value.tree.Dir? && s.cur.value.tree.skip then FTS_SKIP
    else FTS_NOINSTR
  }

  /** What the first `k` calls give, and where they leave the walk. */
  function Reads(o: Options, roots: seq<Tree>, k: nat): (Pos, seq<Option<Visit>>) {
    if k == 0 then (Opened(o, roots), [])
    else
      var (s, vs) := Reads(o, roots, k - 1);
      var (r, v) := ReadFrom(o, s, Instruction(s));
      (r, vs + [v])
  }

  lemma {:induction false} ReadsKeep(o: Options, roots: seq<Tree>, k: nat)
    requires roots != []
    ensures var (s, vs) := Reads(o, roots, k);
            var all := Traversal(o, roots);
            && Valid(s) && |vs| == k && (0 < k && s.cur.Some? ==> s.cur.value.info != FTS_INIT)
            && (k <= |all| ==> Rest(o, s) == all[k..]) && (|all| < k ==> Rest(o, s) == [])
            && forall i :: 0 <= i < k ==> vs[i] == if i < |all| then Some(all[i]) else None
  {
    hide Valid, Rest, ReadFrom, Opened, Traversal;
    if k == 0 {
      OpenedIsValid(o, roots);
    } else {
      ReadsKeep(o, roots, k - 1);
      var (s, vs) := Reads(o, roots, k - 1);
      ReadGives(o, s, Instruction(s));
      var all := Traversal(o, roots);
      if k <= |all| {
        assert all[k - 1..] == [all[k - 1]] + all[k..];
      }
    }
  }

  /**
   A walk is the recursive traversal: the calls of fts_read give its visits one by one, and nothing after the last
   one; between the calls, the path buffer holds the path of the current entry.
   */
  lemma WalkIsTraversal(o: Options, roots: seq<Tree>, k: nat)
    requires roots != []
    ensures var vs := Reads(o, roots, k).1;
            var all := Traversal(o, roots);
            |vs| == k && forall i :: 0 <= i < k ==> vs[i] == if i < |all| then Some(all[i]) else None
    ensures var s := Reads(o, roots, k).0;
            s.cur.Some? && 0 < k ==> s.path == PathBelow(s.parents, s.cur.value.tree)
  {
    ReadsKeep(o, roots, k);
  }
}
