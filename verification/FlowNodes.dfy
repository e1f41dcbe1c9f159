/**
 Flow nodes: the pool they come from and the list of UDP flows, both threaded through the nodes themselves.
 */
module FlowNodes {
  import opened Wrappers

  const NODE_FREE: nat := 0xA5
  const NODE_IN_USE: nat := 0x5A

  /** FLOWELEMENTNUM */
  const DEFAULT_SIZE: nat := 1048576

  class Node {
    var left: Node?
    var right: Node?
    var memflag: nat
    var key: nat
    var tLast: int

    /** A node of the cache, as calloc leaves it. */
    constructor ()
      ensures left == null && right == null && memflag == 0 && key == 0 && tLast == 0
    {
      left, right, memflag, key, tLast := null, null, 0, 0, 0;
    }
  }

  ghost predicate Distinct(ns: seq<Node>) {
    forall i, j :: 0 <= i < j < |ns| ==> ns[i] != ns[j]
  }

  /** The node behind node `i`, and the one before it. */
  ghost function After(ns: seq<Node>, i: nat): Node?
    requires i < |ns|
  {
    if i + 1 < |ns| then ns[i + 1] else null
  }

  ghost function Before(ns: seq<Node>, i: nat): Node?
    requires i < |ns|
  {
    if i > 0 then ns[i - 1] else null
  }

  /** `first` heads the chain of right links through `ns`. */
  ghost predicate Chain(first: Node?, ns: seq<Node>)
    reads ns
  {
    && first == (if |ns| == 0 then null else ns[0])
    && forall i :: 0 <= i < |ns| ==> ns[i].right == After(ns, i)
  }

  lemma ChainTail(first: Node?, ns: seq<Node>)
    requires Chain(first, ns) && ns != [] && Distinct(ns)
    ensures Chain(ns[0].right, ns[1..]) && ns[0] !in ns[1..] && Distinct(ns[1..])
  {
    forall i | 0 <= i < |ns| - 1 ensures ns[1..][i].right == After(ns[1..], i) {
      assert ns[1..][i] == ns[i + 1];
    }
    assert ns[0].right == After(ns, 0);
  }

  lemma ChainCons(first: Node?, ns: seq<Node>, n: Node)
    requires Chain(first, ns) && n.right == first && n !in ns && Distinct(ns)
    ensures Chain(n, [n] + ns) && Distinct([n] + ns)
  {
    var ms := [n] + ns;
    forall i | 0 <= i < |ms| ensures ms[i].right == After(ms, i) {
      if i > 0 {
        assert ms[i] == ns[i - 1];
      }
    }
  }

  ghost function Elements(ns: seq<Node>): set<Node> {
    set n | n in ns
  }

  lemma {:induction false} DistinctSize(ns: seq<Node>)
    requires Distinct(ns)
    ensures |Elements(ns)| == |ns|
  {
    if ns != [] {
      var m := |ns| - 1;
      DistinctSize(ns[..m]);
      assert Elements(ns) == Elements(ns[..m]) + {ns[m]};
      assert ns[m] !in Elements(ns[..m]);
    }
  }

  /** A node outside the free list leaves fewer nodes on it than the cache has. */
  lemma SomeInUse(cache: seq<Node>, free: seq<Node>, n: Node)
    requires Distinct(cache) && Distinct(free) && (forall m <- free :: m in cache) && n in cache && n !in free
    ensures |free| < |cache|
  {
    DistinctSize(cache);
    DistinctSize(free);
    SubsetSize(Elements(free), Elements(cache) - {n});
  }

  lemma {:induction false} SubsetSize(a: set<Node>, b: set<Node>)
    requires a <= b
    ensures |a| <= |b|
  {
    if a != {} {
      var x :| x in a;
      SubsetSize(a - {x}, b - {x});
    }
  }

  /** The free list over the node cache. */
  class Pool {
    const cache: seq<Node>
    var freeList: Node?
    var inUse: nat
    var cacheOverflow: nat
    ghost var free: seq<Node>

    ghost predicate Valid()
      reads this, cache, free
    {
      && Distinct(cache) && Distinct(free) && (forall n <- free :: n in cache)
      && Chain(freeList, free)
      && (forall n <- cache :: n.memflag == NODE_FREE || n.memflag == NODE_IN_USE)
      && (forall n <- cache :: n.memflag == NODE_FREE <==> n in free)
      && |free| + inUse == |cache|
    }

    /** The cache part of Init_FlowTree; a size of 0 stands for the default. */
    constructor (cacheSize: nat)
      requires cacheSize != 1
      ensures Valid() && fresh(cache) && free == cache && inUse == 0 && cacheOverflow == 0
      ensures |cache| == if cacheSize == 0 then DEFAULT_SIZE else cacheSize
    {
      var size := if cacheSize == 0 then DEFAULT_SIZE else cacheSize;
      var nodes: seq<Node> := [];
      while |nodes| < size
        invariant |nodes| <= size && fresh(nodes) && Distinct(nodes)
      {
        var n := new Node();
        nodes := nodes + [n];
      }
      nodes[0].left, nodes[0].right, nodes[0].memflag := null, nodes[1], NODE_FREE;
      var i := 1;
      while i < size - 1
        invariant 1 <= i <= size - 1
        invariant forall k :: 0 <= k < i ==> nodes[k].right == nodes[k + 1] && nodes[k].memflag == NODE_FREE
      {
        nodes[i].memflag := NODE_FREE;
        nodes[i].left := nodes[i - 1];
        nodes[i].right := nodes[i + 1];
        i := i + 1;
      }
      nodes[i].left, nodes[i].right, nodes[i].memflag := nodes[i - 1], null, NODE_FREE;
      cache := nodes;
      freeList := nodes[0];
      inUse, cacheOverflow := 0, 0;
      free := nodes;
    }

    lemma InUseIsNotFree(n: Node)
      requires Valid() && n in cache
      ensures n in free <==> n.memflag != NODE_IN_USE
    {}

    /** The counter is the number of nodes in use. */
    lemma CountsInUse()
      requires Valid()
      ensures inUse == |set n | n in cache && n.memflag == NODE_IN_USE|
    {
      DistinctSize(cache);
      DistinctSize(free);
      var busy := set n | n in cache && n.memflag == NODE_IN_USE;
      assert Elements(cache) == Elements(free) + busy;
      assert Elements(free) !! busy;
    }

    /** Links of nodes in use do not matter to the pool. */
    twostate lemma Framed()
      requires old(Valid()) && unchanged(this) && forall n <- free :: unchanged(n)
      requires forall n <- cache :: n.memflag == old(n.memflag)
      ensures Valid()
    {
      forall i | 0 <= i < |free| ensures free[i].right == After(free, i) {
        assert free[i] in free;
      }
    }

    /** New_Node: the head of the free list; with none left the overflow is counted and the caller has to wait. */
    method NewNode() returns (n: Node?)
      requires Valid()
      modifies this, cache
      ensures Valid() && (n != null ==> n in cache)
      ensures n == null <==> old(free) == []
      ensures n == null ==>
                cacheOverflow == old(cacheOverflow) + 1 && free == [] && inUse == old(inUse)
                && forall m <- cache :: unchanged(m)
      ensures n != null ==>
                && n == old(free)[0] && free == old(free)[1..] && n !in free
                && inUse == old(inUse) + 1 && cacheOverflow == old(cacheOverflow)
                && n.memflag == NODE_IN_USE && n.left == null && n.right == null
                && forall m <- cache :: m != n ==> unchanged(m)
    {
      if freeList == null {
        cacheOverflow := cacheOverflow + 1;
        return null;
      }
      n := freeList;
      assert n == free[0] && n in cache;
      ChainTail(freeList, free);
      freeList := n.right;
      inUse := inUse + 1;
      free := free[1..];
      n.left := null;
      n.right := null;
      n.memflag := NODE_IN_USE;
    }

    /** Free_Node: the node becomes the head of the free list, unless it is there already, which aborts. */
    method FreeNode(n: Node) returns (ok: bool)
      requires Valid() && n in cache
      modifies this, n
      ensures Valid()
      ensures ok <==> n !in old(free)
      ensures !ok ==> unchanged(this) && unchanged(n)
      ensures ok ==>
                && free == [n] + old(free) && inUse == old(inUse) - 1 && cacheOverflow == 0
                && n.memflag == NODE_FREE
    {
      if n.memflag == NODE_FREE {
        return false;
      }
      if n.memflag != NODE_IN_USE {
        return false;
      }
      SomeInUse(cache, free, n);
      n.left, n.right, n.memflag, n.key, n.tLast := null, null, 0, 0, 0;
      n.right := freeList;
      n.left := null;
      n.memflag := NODE_FREE;
      ChainCons(freeList, free, n);
      freeList := n;
      inUse := inUse - 1;
      free := [n] + free;
      if cacheOverflow != 0 {
        cacheOverflow := 0;
      }
      ok := true;
    }
  }

  // ---------------------------------------------------------------- the list of UDP flows

  /** The nodes are linked in this order, both ways. */
  ghost predicate Links(ns: seq<Node>)
    reads ns
  {
    forall i :: 0 <= i < |ns| ==> ns[i].left == Before(ns, i) && ns[i].right == After(ns, i)
  }

  ghost function IndexOf(ns: seq<Node>, n: Node): (i: nat)
    requires n in ns
    ensures i < |ns| && ns[i] == n
  {
    var i :| 0 <= i < |ns| && ns[i] == n;
    i
  }

  /** The list with one node left out; the others keep their order. */
  ghost function Without(ns: seq<Node>, n: Node): seq<Node>
    requires n in ns
  {
    ns[..IndexOf(ns, n)] + ns[IndexOf(ns, n) + 1..]
  }

  /** The links around node `i` pass it by. */
  ghost predicate Bypassed(ns: seq<Node>, i: nat)
    requires i < |ns|
    reads ns
  {
    forall k :: 0 <= k < |ns| && k != i ==>
      && ns[k].left == (if k == i + 1 then Before(ns, i) else Before(ns, k))
      && ns[k].right == (if k + 1 == i then After(ns, i) else After(ns, k))
  }

  ghost function First(ns: seq<Node>): Node? {
    if |ns| == 0 then null else ns[0]
  }

  ghost function Last(ns: seq<Node>): Node? {
    if |ns| == 0 then null else ns[|ns| - 1]
  }

  lemma BypassedLinks(ns: seq<Node>, n: Node)
    requires n in ns && Bypassed(ns, IndexOf(ns, n)) && Distinct(ns)
    ensures var ms := Without(ns, n); Links(ms) && Distinct(ms) && n !in ms && forall m <- ms :: m in ns
  {
    var ms, i := Without(ns, n), IndexOf(ns, n);
    forall k | 0 <= k < |ms| ensures ms[k].left == Before(ms, k) && ms[k].right == After(ms, k) {
      assert ms[k] == ns[if k < i then k else k + 1];
    }
  }

  /** The ends of a list with one node left out. */
  lemma WithoutEnds(ns: seq<Node>, n: Node)
    requires n in ns && Distinct(ns)
    ensures var i, ms := IndexOf(ns, n), Without(ns, n);
            && |ms| == |ns| - 1
            && First(ms) == (if i == 0 then After(ns, 0) else First(ns))
            && Last(ms) == (if Last(ns) == n then Before(ns, i) else Last(ns))
            && (Last(ns) == n <==> i + 1 == |ns|)
            && (Last(ns) == n ==> ns == ms + [n])
  {}

  lemma Neighbours(ns: seq<Node>, n: Node)
    requires Links(ns) && n in ns
    ensures n.left == Before(ns, IndexOf(ns, n)) && n.right == After(ns, IndexOf(ns, n))
    ensures First(ns) != null && Last(ns) != null && Last(ns) in ns
  {}

  /** A node linked behind the last one of a list. */
  method Hook(tail: Node, n: Node, ghost ns: seq<Node>)
    requires Distinct(ns) && Links(ns) && Last(ns) == tail && n !in ns
    modifies tail`right, n`left, n`right
    ensures Links(ns + [n]) && Distinct(ns + [n]) && First(ns + [n]) == First(ns) && Last(ns + [n]) == n
  {
    tail.right := n;
    n.left := tail;
    n.right := null;
    ghost var ms := ns + [n];
    forall k | 0 <= k < |ms| ensures ms[k].left == Before(ms, k) && ms[k].right == After(ms, k) {
      if k < |ns| {
        assert ms[k] == ns[k];
      }
    }
  }

  class LinkedList {
    var list: Node?
    var tail: Node?
    var size: nat
    ghost var nodes: seq<Node>

    ghost predicate Valid()
      reads this, nodes
    {
      Distinct(nodes) && Links(nodes) && size == |nodes| && Ends(nodes)
    }

    ghost predicate Ends(ns: seq<Node>)
      reads this
    {
      list == First(ns) && tail == Last(ns)
    }

    lemma HeadIsFirst()
      requires Valid()
      ensures list == null <==> nodes == []
      ensures list != null ==> nodes[0] == list && Without(nodes, list) == nodes[1..]
    {}

    lemma NodesDiffer()
      requires Valid()
      ensures Distinct(nodes)
    {
      hide Links, Ends;
    }

    constructor ()
      ensures Valid() && nodes == []
    {
      list, tail, size, nodes := null, null, 0, [];
    }

    /** Only the links of the nodes matter to the list. */
    twostate lemma Framed()
      requires old(Valid()) && unchanged(this)
      requires forall n <- nodes :: n.left == old(n.left) && n.right == old(n.right)
      ensures Valid()
    {
      assert forall i :: 0 <= i < |nodes| ==> nodes[i] in nodes;
    }

    /** AppendFlowNode */
    method Append(n: Node)
      requires Valid() && n !in nodes
      modifies this, n`left, n`right, nodes`right
      ensures Valid() && nodes == old(nodes) + [n]
    {
      if list == null {
        n.left := null;
        n.right := null;
        list := n;
        tail := n;
        size := size + 1;
      } else {
        Hook(tail, n, nodes);
        tail := n;
        size := size + 1;
      }
      nodes := nodes + [n];
    }

    /** The neighbours of a node are linked with each other. */
    method Bypass(n: Node, ghost i: nat)
      requires Valid() && i < |nodes| && nodes[i] == n
      modifies this`list, nodes`left, nodes`right
      ensures Bypassed(nodes, i) && unchanged(n)
      ensures list == if i == 0 then After(nodes, 0) else old(list)
    {
      var prev := n.left;
      var next := n.right;
      if prev != null {
        prev.right := next;
      } else {
        list := next;
      }
      if next != null {
        next.left := prev;
      }
    }

    /** DisconnectFlowNode */
    method Disconnect(n: Node)
      requires Valid() && n in nodes
      modifies this, nodes`left, nodes`right
      ensures Valid() && nodes == Without(old(nodes), n) && n !in nodes
      ensures n.left == null && n.right == null
    {
      hide Distinct, Links, Bypassed, Without, First, Last, Before, After;
      WithoutEnds(nodes, n);
      Neighbours(nodes, n);
      Bypass(n, IndexOf(nodes, n));
      BypassedLinks(nodes, n);
      if tail == n {
        tail := n.left;
      }
      n.left := null;
      n.right := null;
      size := size - 1;
      nodes := Without(nodes, n);
    }

    /** TouchFlowNode: the node goes to the tail. */
    method Touch(n: Node)
      requires Valid() && n in nodes
      modifies this, nodes`left, nodes`right
      ensures Valid() && nodes == Without(old(nodes), n) + [n]
    {
      hide Distinct, Links, Bypassed, Without, First, Last, Before, After;
      WithoutEnds(nodes, n);
      Neighbours(nodes, n);
      if list == null {
        return;
      }
      if tail == n {
        return;
      }
      Leave(n, IndexOf(nodes, n));
      BypassedLinks(nodes, n);
      ghost var ms := Without(nodes, n);
      Hook(tail, n, ms);
      tail := n;
      nodes := ms + [n];
    }

    /** A node other than the last one is taken out of the chain. */
    method Leave(n: Node, ghost i: nat)
      requires Valid() && i + 1 < |nodes| && nodes[i] == n
      modifies this`list, nodes`left, nodes`right
      ensures Bypassed(nodes, i) && unchanged(n)
      ensures list == if i == 0 then After(nodes, 0) else old(list)
    {
      if n.left == null {
        list := n.right;
        list.left := null;
      } else {
        n.right.left := n.left;
        n.left.right := n.right;
      }
    }
  }

  // ---------------------------------------------------------------- the flow tree over both

  /** A UDP flow and the time of its last packet. */
  datatype Entry = Entry(key: nat, time: int)

  ghost function Entries(ns: seq<Node>): (es: seq<Entry>)
    reads ns
    ensures |es| == |ns| && forall i :: 0 <= i < |ns| ==> es[i] == Entry(ns[i].key, ns[i].tLast)
  {
    seq(|ns|, i requires 0 <= i < |ns| reads ns => Entry(ns[i].key, ns[i].tLast))
  }

  /** The list without the flow of a key. */
  function Drop(es: seq<Entry>, key: nat): seq<Entry> {
    if |es| == 0 then []
    else Drop(es[..|es| - 1], key) + (if es[|es| - 1].key == key then [] else [es[|es| - 1]])
  }

  /** A packet of a flow: the flow goes to the end, with the packet's time. */
  function Touched(es: seq<Entry>, key: nat, time: int): seq<Entry> {
    Drop(es, key) + [Entry(key, time)]
  }

  /** Expiry: flows are dropped from the front while they are older than the limit. */
  function Expired(es: seq<Entry>, limit: int): seq<Entry> {
    if |es| > 0 && es[0].time < limit then Expired(es[1..], limit) else es
  }

  lemma {:induction false} ExpiredFrom(es: seq<Entry>, k: nat, limit: int)
    requires k <= |es| && (forall i :: 0 <= i < k ==> es[i].time < limit) && (k < |es| ==> limit <= es[k].time)
    ensures Expired(es, limit) == es[k..]
  {
    if k > 0 {
      ExpiredFrom(es[1..], k - 1, limit);
      assert es[1..][k - 1..] == es[k..];
    }
  }

  ghost predicate DistinctKeys(es: seq<Entry>) {
    forall i, j :: 0 <= i < j < |es| ==> es[i].key != es[j].key
  }

  ghost predicate HasKey(es: seq<Entry>, key: nat) {
    exists i :: 0 <= i < |es| && es[i].key == key
  }

  lemma {:induction false} DropAbsent(es: seq<Entry>, key: nat)
    requires !HasKey(es, key)
    ensures Drop(es, key) == es
  {
    if |es| > 0 {
      DropAbsent(es[..|es| - 1], key);
      assert es[|es| - 1].key != key;
    }
  }

  lemma {:induction false} DropPresent(es: seq<Entry>, i: nat)
    requires i < |es| && DistinctKeys(es)
    ensures Drop(es, es[i].key) == es[..i] + es[i + 1..]
  {
    var m := |es| - 1;
    if i < m {
      DropPresent(es[..m], i);
      assert es[..m][..i] == es[..i] && es[..m][i + 1..] + [es[m]] == es[i + 1..];
    } else {
      DropAbsent(es[..m], es[i].key);
    }
  }

  /** Entries after a flow was touched: `es` are those before, `ns` the nodes in the order before. */
  lemma EntriesTouched(es: seq<Entry>, ns: seq<Node>, e: Node)
    requires |es| == |ns| && e in ns && DistinctKeys(es)
    requires forall i :: 0 <= i < |ns| ==> es[i].key == ns[i].key && (ns[i] != e ==> es[i].time == ns[i].tLast)
    requires Distinct(ns)
    ensures Entries(Without(ns, e) + [e]) == Touched(es, e.key, e.tLast)
  {
    var i := IndexOf(ns, e);
    DropPresent(es, i);
    assert Entries(Without(ns, e) + [e]) == es[..i] + es[i + 1..] + [Entry(e.key, e.tLast)];
  }

  /** Entries after a new flow was appended. */
  lemma EntriesAppended(es: seq<Entry>, ns: seq<Node>, n: Node)
    requires |es| == |ns| && !HasKey(es, n.key)
    requires forall i :: 0 <= i < |ns| ==> es[i] == Entry(ns[i].key, ns[i].tLast)
    ensures Entries(ns + [n]) == Touched(es, n.key, n.tLast)
  {
    DropAbsent(es, n.key);
    assert Entries(ns + [n]) == es + [Entry(n.key, n.tLast)];
  }

  ghost function Keys(ks: seq<nat>): set<nat> {
    set k | k in ks
  }

  lemma NoKeys(tree: map<nat, Node>)
    ensures tree - Keys([]) == tree
  {}

  lemma KeysPush(tree: map<nat, Node>, ks: seq<nat>, k: nat)
    ensures tree - Keys(ks) - {k} == tree - Keys(ks + [k])
  {
    assert Keys(ks + [k]) == Keys(ks) + {k};
  }

  class FlowTree {
    const pool: Pool
    const udp: LinkedList
    var tree: map<nat, Node>
    var numFlows: nat

    /** The flows of the tree are nodes in use under their keys; those of the UDP list are flows of the tree. */
    ghost predicate Valid()
      reads this, pool, pool.cache, pool.free, udp, udp.nodes
    {
      && pool.Valid() && udp.Valid()
      && (forall k <- tree :: Stands(k))
      && numFlows == |tree|
      && (forall n <- udp.nodes :: n in pool.cache && n.key in tree && tree[n.key] == n)
    }

    ghost predicate Stands(k: nat)
      requires k in tree
      reads this, pool, pool.cache
    {
      tree[k] in pool.cache && tree[k].memflag == NODE_IN_USE && tree[k].key == k
    }

    lemma UdpHead()
      requires Valid()
      ensures udp.list == null <==> udp.nodes == []
      ensures udp.list != null ==>
                && udp.nodes[0] == udp.list && udp.list.right == (if |udp.nodes| > 1 then udp.nodes[1] else null)
    {
      udp.HeadIsFirst();
      assert Links(udp.nodes);
    }

    lemma KeyOf(k: nat)
      requires Valid() && k in tree
      ensures tree[k].key == k
    {
      assert Stands(k);
    }

    lemma TreeInUse()
      requires Valid()
      ensures forall k <- tree :: tree[k] !in pool.free
    {
      forall k <- tree ensures tree[k] !in pool.free {
        assert Stands(k);
        pool.InUseIsNotFree(tree[k]);
      }
    }

    lemma UdpInUse()
      requires Valid()
      ensures forall n <- udp.nodes :: n !in pool.free
    {
      forall n <- udp.nodes ensures n !in pool.free {
        assert Stands(n.key);
        pool.InUseIsNotFree(n);
      }
    }

    /** Init_FlowTree */
    constructor (cacheSize: nat)
      requires cacheSize != 1
      ensures Valid() && tree == map[] && udp.nodes == [] && pool.inUse == 0
    {
      pool := new Pool(cacheSize);
      udp := new LinkedList();
      tree := map[];
      numFlows := 0;
    }

    /** New_Node, for the tree: a node that no flow has. */
    method NewNode() returns (n: Node?)
      requires Valid()
      modifies pool, pool.cache
      ensures Valid() && udp.nodes == old(udp.nodes)
      ensures n == null <==> old(pool.free) == []
      ensures n != null ==>
                && n in pool.cache && n.memflag == NODE_IN_USE && n !in udp.nodes && (forall k <- tree :: tree[k] != n)
                && pool.inUse == old(pool.inUse) + 1
    {
      hide Pool.Valid, LinkedList.Valid;
      UdpInUse();
      TreeInUse();
      n := pool.NewNode();
      assert forall m <- udp.nodes :: m in pool.cache && unchanged(m);
      assert forall k <- tree :: tree[k] in pool.cache && unchanged(tree[k]);
      udp.Framed();
    }

    /** Insert_Node: the node that has the key already, or null if the new one was inserted. */
    method Insert(n: Node) returns (existing: Node?)
      requires Valid() && n in pool.cache && n.memflag == NODE_IN_USE
      modifies this
      ensures Valid()
      ensures existing == if n.key in old(tree) then old(tree)[n.key] else null
      ensures tree == if n.key in old(tree) then old(tree) else old(tree)[n.key := n]
    {
      hide Pool.Valid, LinkedList.Valid;
      if n.key in tree {
        existing := tree[n.key];
      } else {
        tree := tree[n.key := n];
        numFlows := numFlows + 1;
        existing := null;
      }
    }

    /** Remove_Node */
    method Remove(n: Node)
      requires Valid() && n.key in tree && tree[n.key] == n && n !in udp.nodes
      modifies this, pool, n
      ensures Valid() && tree == old(tree) - {old(n.key)} && numFlows == old(numFlows) - 1
      ensures pool.free == [n] + old(pool.free) && pool.inUse == old(pool.inUse) - 1
    {
      hide Pool.Valid, LinkedList.Valid;
      assert Stands(n.key);
      pool.InUseIsNotFree(n);
      tree := tree - {n.key};
      var ok := pool.FreeNode(n);
      numFlows := numFlows - 1;
    }
  
    /** One round of UDPexpire: the head of the UDP list leaves list and tree, and goes back to the pool. */
    method ExpireHead(n: Node)
      requires Valid() && udp.list == n
      modifies this, pool, udp, udp.nodes
      ensures Valid() && 0 < old(|udp.nodes|) && n == old(udp.nodes[0]) && udp.nodes == old(udp.nodes)[1..]
      ensures tree == old(tree) - {old(n.key)} && numFlows == old(numFlows) - 1
      ensures pool.inUse == old(pool.inUse) - 1 && Entries(udp.nodes) == old(Entries(udp.nodes))[1..]
    {
      hide Pool.Valid, LinkedList.Valid, Without, Entries;
      ghost var es := Entries(udp.nodes);
      udp.HeadIsFirst();
      UdpInUse();
      udp.Disconnect(n);
      pool.Framed();
      Remove(n);
      assert forall i :: 0 <= i < |udp.nodes| ==> udp.nodes[i] in udp.nodes;
      assert Entries(udp.nodes) == es[1..];
    }
  
    /**
     UDPexpire: from the head on, the flows whose last packet is older than the limit leave the list, the tree and
     the pool's nodes in use; `stored` are the records that are written for them.
     */
    method Expire(limit: int) returns (stored: seq<nat>)
      requires Valid()
      modifies this, pool, udp, udp.nodes
      ensures Valid() && |stored| <= old(|udp.nodes|) && udp.nodes == old(udp.nodes)[|stored|..]
      ensures var es := old(Entries(udp.nodes));
              && Entries(udp.nodes) == es[|stored|..] == Expired(es, limit)
              && (forall i :: 0 <= i < |stored| ==> stored[i] == es[i].key && es[i].time < limit)
      ensures udp.nodes != [] ==> limit <= udp.nodes[0].tLast
      ensures tree == old(tree) - Keys(stored)
      ensures numFlows == old(numFlows) - |stored| && pool.inUse == old(pool.inUse) - |stored|
    {
      hide Pool.Valid, LinkedList.Valid, FlowTree.Valid, Entries, Expired, Keys;
      ghost var ns, es := udp.nodes, Entries(udp.nodes);
      stored := [];
      assert tree == tree - Keys(stored) by { NoKeys(tree); }
      var node := udp.list;
      while node != null && node.tLast < limit
        invariant Valid() && node == udp.list
        invariant |stored| <= |ns| && udp.nodes == ns[|stored|..] && Entries(udp.nodes) == es[|stored|..]
        invariant forall i :: 0 <= i < |stored| ==> stored[i] == es[i].key && es[i].time < limit
        invariant tree == old(tree) - Keys(stored)
        invariant numFlows == old(numFlows) - |stored| && pool.inUse == old(pool.inUse) - |stored|
        decreases |udp.nodes|
      {
        var n := node;
        UdpHead();
        node := n.right;
        KeysPush(old(tree), stored, n.key);
        assert es[|stored|..][0] == es[|stored|];
        stored := stored + [n.key];
        ExpireHead(n);
        UdpHead();
      }
      UdpHead();
      ExpiredFrom(es, |stored|, limit);
    }
  
    /** A flow that was inserted is appended to the UDP list. */
    method AppendUdp(n: Node)
      requires Valid() && n.key in tree && tree[n.key] == n && n !in udp.nodes
      modifies udp, n, udp.nodes
      ensures Valid() && udp.nodes == old(udp.nodes) + [n]
      ensures forall m <- udp.nodes :: m.key == old(m.key) && m.tLast == old(m.tLast)
    {
      hide Pool.Valid, LinkedList.Valid;
      UdpInUse();
      assert Stands(n.key);
      pool.InUseIsNotFree(n);
      udp.Append(n);
      pool.Framed();
    }

    /** A flow that is there gets the new time and goes to the tail, and the new node goes back to the pool. */
    method TouchUdp(e: Node, n: Node)
      requires Valid() && n in pool.cache && n.memflag == NODE_IN_USE && e in udp.nodes && n !in udp.nodes
      requires forall k <- tree :: tree[k] != n
      modifies this, pool, udp, n, udp.nodes
      ensures Valid() && udp.nodes == Without(old(udp.nodes), e) + [e] && tree == old(tree)
      ensures pool.inUse == old(pool.inUse) - 1 && e.tLast == old(n.tLast)
      ensures forall m <- old(udp.nodes) :: m.key == old(m.key) && (m != e ==> m.tLast == old(m.tLast))
    {
      hide Pool.Valid, LinkedList.Valid, Without;
      UdpInUse();
      pool.InUseIsNotFree(n);
      WithoutIn(udp.nodes, e);
      e.tLast := n.tLast;
      udp.Framed();
      udp.Touch(e);
      pool.Framed();
      Release(n);
    }

    /** A node that no flow has goes back to the pool. */
    method Release(n: Node)
      requires Valid() && n in pool.cache && n.memflag == NODE_IN_USE && n !in udp.nodes && forall k <- tree :: tree[k] != n
      modifies pool, n
      ensures Valid() && pool.inUse == old(pool.inUse) - 1
    {
      hide Pool.Valid, LinkedList.Valid;
      pool.InUseIsNotFree(n);
      var ok := pool.FreeNode(n);
      udp.Framed();
    }

    /** Every flow is in the UDP list once, and only flows of the tree are. */
    lemma UdpKeys()
      requires Valid()
      ensures Distinct(udp.nodes) && DistinctKeys(Entries(udp.nodes))
      ensures forall k: nat :: HasKey(Entries(udp.nodes), k) ==> k in tree
    {
      hide Pool.Valid, LinkedList.Valid, Stands;
      var ns := udp.nodes;
      udp.NodesDiffer();
      forall i | 0 <= i < |ns| ensures ns[i].key in tree && tree[ns[i].key] == ns[i] {
        UdpNode(ns[i]);
      }
    }

    lemma UdpNode(n: Node)
      requires Valid() && n in udp.nodes
      ensures n.key in tree && tree[n.key] == n
    {
      hide Pool.Valid, LinkedList.Valid, Stands;
    }

    /**
     ProcessUDPFlow, for flows that are not written at once: the flow of the packet is inserted if it is new, and
     becomes the last of the UDP list with the time of the packet.
     */
    method ProcessUdp(n: Node)
      requires Valid() && n in pool.cache && n.memflag == NODE_IN_USE && n !in udp.nodes
      requires forall k <- tree :: tree[k] != n
      requires n.key in tree ==> tree[n.key] in udp.nodes
      modifies this, pool, udp, n, udp.nodes
      ensures Valid() && Entries(udp.nodes) == Touched(old(Entries(udp.nodes)), old(n.key), old(n.tLast))
      ensures tree == if old(n.key) in old(tree) then old(tree) else old(tree)[old(n.key) := n]
      ensures pool.inUse == old(pool.inUse) - if old(n.key) in old(tree) then 1 else 0
    {
      hide Pool.Valid, LinkedList.Valid, FlowTree.Valid, Entries, Touched, DistinctKeys, HasKey, Distinct, Without;
      ghost var es, ns := Entries(udp.nodes), udp.nodes;
      UdpKeys();
      var e := Insert(n);
      if e == null {
        AppendUdp(n);
        EntriesAppended(es, ns, n);
      } else {
        KeyOf(n.key);
        TouchUdp(e, n);
        EntriesTouched(es, ns, e);
      }
    }
  }

  lemma WithoutIn(ns: seq<Node>, n: Node)
    requires n in ns
    ensures forall m <- Without(ns, n) + [n] :: m in ns
  {}

  // ---------------------------------------------------------------- idle UDP flows

  datatype Event = Packet(key: nat, time: int) | Expiry(limit: int)

  /** The UDP list after a run of packets and expiries. */
  function UdpRun(xs: seq<Event>): seq<Entry> {
    if |xs| == 0 then []
    else
      var es := UdpRun(xs[..|xs| - 1]);
      match xs[|xs| - 1]
      case Packet(key, time) => Touched(es, key, time)
      case Expiry(limit) => Expired(es, limit)
  }

  /** What a timer of its own for every flow would keep: the time of the last packet, until an expiry after it. */
  function Seen(xs: seq<Event>, key: nat): Option<int> {
    if |xs| == 0 then None
    else
      var s := Seen(xs[..|xs| - 1], key);
      match xs[|xs| - 1]
      case Packet(k, time) => if k == key then Some(time) else s
      case Expiry(limit) => if s.Some? && s.value < limit then None else s
  }

  /** Packets come in the order of their times, as from a capture. */
  ghost predicate InOrder(xs: seq<Event>) {
    forall i, j :: 0 <= i < j < |xs| && xs[i].Packet? && xs[j].Packet? ==> xs[i].time <= xs[j].time
  }

  ghost predicate Sorted(es: seq<Entry>) {
    forall i, j :: 0 <= i < j < |es| ==> es[i].time <= es[j].time
  }

  lemma {:induction false} DropKeeps(es: seq<Entry>, key: nat, e: Entry)
    ensures e in Drop(es, key) <==> e in es && e.key != key
  {
    if |es| > 0 {
      DropKeeps(es[..|es| - 1], key, e);
      assert es == es[..|es| - 1] + [es[|es| - 1]];
    }
  }

  lemma {:induction false} DropSorted(es: seq<Entry>, key: nat)
    requires Sorted(es)
    ensures Sorted(Drop(es, key))
  {
    if |es| > 0 {
      var m := |es| - 1;
      DropSorted(es[..m], key);
      forall e | e in Drop(es[..m], key) ensures e.time <= es[m].time {
        DropKeeps(es[..m], key, e);
      }
    }
  }

  /** On a sorted list, dropping from the front while older is dropping all that are older. */
  lemma {:induction false} ExpiredAreOlder(es: seq<Entry>, limit: int, e: Entry)
    requires Sorted(es)
    ensures e in Expired(es, limit) <==> e in es && limit <= e.time
    ensures Sorted(Expired(es, limit))
  {
    if |es| > 0 && es[0].time < limit {
      ExpiredAreOlder(es[1..], limit, e);
      assert es == [es[0]] + es[1..];
    }
  }

  /** The list is sorted, and the times in it are those of packets. */
  lemma {:induction false} RunSorted(xs: seq<Event>, e: Entry)
    requires InOrder(xs)
    ensures Sorted(UdpRun(xs)) && (e in UdpRun(xs) ==> Packet(e.key, e.time) in xs)
  {
    if |xs| > 0 {
      var m := |xs| - 1;
      var es := UdpRun(xs[..m]);
      RunSorted(xs[..m], e);
      match xs[m] {
        case Packet(key, time) =>
          DropSorted(es, key);
          DropKeeps(es, key, e);
          forall d | d in Drop(es, key) ensures d.time <= time {
            DropKeeps(es, key, d);
            RunSorted(xs[..m], d);
          }
        case Expiry(limit) =>
          ExpiredAreOlder(es, limit, e);
      }
    }
  }

  /**
   The list from which only the front is ever expired keeps exactly the flows that a timer for each flow would
   keep, with their times, as long as packets come in order.
   */
  lemma {:induction false} ListIsTimerPerFlow(xs: seq<Event>, key: nat, time: int)
    requires InOrder(xs)
    ensures Entry(key, time) in UdpRun(xs) <==> Seen(xs, key) == Some(time)
  {
    if |xs| > 0 {
      var m := |xs| - 1;
      var es := UdpRun(xs[..m]);
      ListIsTimerPerFlow(xs[..m], key, time);
      RunSorted(xs[..m], Entry(key, time));
      match xs[m] {
        case Packet(k, t) =>
          DropKeeps(es, k, Entry(key, time));
        case Expiry(limit) =>
          ExpiredAreOlder(es, limit, Entry(key, time));
      }
    }
  }
}
