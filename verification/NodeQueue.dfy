/**
 The queue between the capture thread and the flow thread: the list itself, and the steps of any number of threads
 that push and pop under one lock and one condition variable.
 */
module NodeQueue {
  import opened FlowNodes
  import opened Wrappers

  // ---------------------------------------------------------------- the list, under the lock

  /** The links of a list whose first node is taken away. */
  lemma FirstGone(ns: seq<Node>)
    requires |ns| > 0 && Distinct(ns)
    requires forall i :: 1 <= i < |ns| ==> ns[i].right == After(ns, i) && ns[i].left == if i == 1 then null else Before(ns, i)
    ensures var ms := ns[1..];
            && Links(ms) && Distinct(ms) && ns[0] !in ms && First(ms) == After(ns, 0)
            && Last(ms) == if After(ns, 0) == null then null else Last(ns)
  {
    var ms := ns[1..];
    forall i | 0 <= i < |ms| ensures ms[i].left == Before(ms, i) && ms[i].right == After(ms, i) {
      assert ms[i] == ns[i + 1];
    }
  }

  lemma HeadIs(ns: seq<Node>)
    requires |ns| > 0
    ensures First(ns) == ns[0]
  {}

  class NodeList {
    var list: Node?
    var last: Node?
    var length: nat
    ghost var nodes: seq<Node>

    ghost predicate Valid()
      reads this, nodes
    {
      Distinct(nodes) && Links(nodes) && length == |nodes| && list == First(nodes) && last == Last(nodes)
    }

    /** NewNodeList */
    constructor ()
      ensures Valid() && nodes == []
    {
      list, last, length, nodes := null, null, 0, [];
    }

    /** The part of Push_Node between lock and unlock. */
    method Push(n: Node)
      requires Valid() && n !in nodes
      modifies this, n`left, n`right, nodes`right
      ensures Valid() && nodes == old(nodes) + [n]
    {
      if length == 0 {
        list := n;
        n.left := null;
        n.right := null;
        nodes := [n];
      } else {
        Hook(last, n, nodes);
        nodes := nodes + [n];
      }
      last := n;
      length := length + 1;
    }

    /** The list goes on behind its head. */
    method Behead(n: Node)
      requires Valid() && nodes != [] && nodes[0] == n
      modifies this`list, this`last, nodes`left
      ensures list == After(nodes, 0) && last == (if list == null then null else old(last)) && unchanged(n)
      ensures forall i :: 1 <= i < |nodes| ==>
                nodes[i].right == After(nodes, i) && nodes[i].left == if i == 1 then null else Before(nodes, i)
    {
      list := n.right;
      if list != null {
        list.left := null;
      } else {
        last := null;
      }
    }

    /** The part of Pop_Node that takes a node, once there is one. */
    method Take() returns (n: Node)
      requires Valid() && nodes != []
      modifies this, nodes`left, nodes`right
      ensures Valid() && n == old(nodes)[0] && nodes == old(nodes)[1..] && n !in nodes
      ensures n.left == null && n.right == null
    {
      hide Links, Distinct, First, Last, After, Before;
      assert list == nodes[0] by { HeadIs(nodes); }
      n := list;
      Behead(n);
      FirstGone(nodes);
      n.left := null;
      n.right := null;
      length := length - 1;
      nodes := nodes[1..];
    }
  }

  // ---------------------------------------------------------------- threads

  /** Where a thread is in Push_Node or Pop_Node. */
  datatype Pc =
    | Idle
    | PushLock(node: nat)            // wants the lock, to push
    | PushIn(node: nat)              // has the lock
    | PushHeld                       // has appended its node
    | PushSignal                     // has unlocked, and not yet signalled
    | PopLock                        // wants the lock, to pop
    | PopIn(woken: bool)             // has the lock, before the test of the loop
    | Waiting                        // in pthread_cond_wait
    | Woken                          // out of it, and wants the lock again
    | PopHeld(result: Option<nat>)   // has taken a node, or none as the run is over
  {
    predicate HoldsLock() {
      PushIn? || PushHeld? || PopIn? || PopHeld?
    }

    /** 1 for a push that was given node `x` and has not appended it yet. */
    function Brings(x: nat): nat {
      if (PushLock? || PushIn?) && node == x then 1 else 0
    }

    /** 1 for a signal still to be sent and for a consumer that was woken and took no node yet. */
    function Weight(): nat {
      if PushHeld? || PushSignal? || Woken? || (PopIn? && woken) then 1 else 0
    }
  }

  /**
   The list, the lock, the flag that ends the run, and the threads; with them, the nodes that calls of Push_Node were
   given, that went into the list, that were taken out, and that calls of Pop_Node returned.
   */
  datatype State = State(
    items: seq<nat>, lock: Option<nat>, done: bool, threads: seq<Pc>,
    given: multiset<nat>, pushed: seq<nat>, popped: seq<nat>, returned: seq<nat>)

  datatype Step =
    | CallPush(t: nat, node: nat)
    | CallPop(t: nat)
    | Advance(t: nat, waiter: nat)   // the thread's next step; a signal goes to `waiter`
    | Spurious(t: nat)               // pthread_cond_wait may return without a signal
    | SetDone

  function Init(n: nat): State {
    State([], None, false, seq(n, _ => Idle), multiset{}, [], [], [])
  }

  predicate AnyWaits(threads: seq<Pc>) {
    exists i :: 0 <= i < |threads| && threads[i].Waiting?
  }

  /** A thread at rest, or inside the calls, makes its next step; a step that is not possible leaves the state. */
  function Do(s: State, step: Step): State {
    match step
    case CallPush(t, node) =>
      if t < |s.threads| && s.threads[t].Idle?
      then s.(threads := s.threads[t := PushLock(node)], given := s.given + multiset{node})
      else s
    case CallPop(t) =>
      if t < |s.threads| && s.threads[t].Idle? then s.(threads := s.threads[t := PopLock]) else s
    case Spurious(t) =>
      if t < |s.threads| && s.threads[t].Waiting? then s.(threads := s.threads[t := Woken]) else s
    case SetDone => s.(done := true)
    case Advance(t, w) => if t < |s.threads| then Move(s, t, w) else s
  }

  function Move(s: State, t: nat, w: nat): State
    requires t < |s.threads|
  {
    match s.threads[t]
    case Idle => s
    case PushLock(node) =>
      if s.lock.None? then s.(lock := Some(t), threads := s.threads[t := PushIn(node)]) else s
    case PushIn(node) =>
      s.(items := s.items + [node], pushed := s.pushed + [node], threads := s.threads[t := PushHeld])
    case PushHeld => s.(lock := None, threads := s.threads[t := PushSignal])
    case PushSignal =>
      if w < |s.threads| && s.threads[w].Waiting? then s.(threads := s.threads[t := Idle][w := Woken])
      else if AnyWaits(s.threads) then s
      else s.(threads := s.threads[t := Idle])
    case PopLock => if s.lock.None? then s.(lock := Some(t), threads := s.threads[t := PopIn(false)]) else s
    case Woken => if s.lock.None? then s.(lock := Some(t), threads := s.threads[t := PopIn(true)]) else s
    case Waiting => s
    case PopIn(_) =>
      if s.items == [] && !s.done then s.(lock := None, threads := s.threads[t := Waiting])
      else if s.items == [] then s.(threads := s.threads[t := PopHeld(None)])
      else s.(items := s.items[1..], popped := s.popped + [s.items[0]],
              threads := s.threads[t := PopHeld(Some(s.items[0]))])
    case PopHeld(r) =>
      s.(lock := None, threads := s.threads[t := Idle], returned := s.returned + if r.Some? then [r.value] else [])
  }

  function Run(n: nat, steps: seq<Step>): State {
    if steps == [] then Init(n) else Do(Run(n, steps[..|steps| - 1]), steps[|steps| - 1])
  }

  function Total(threads: seq<Pc>): nat {
    if threads == [] then 0 else Total(threads[..|threads| - 1]) + threads[|threads| - 1].Weight()
  }

  lemma {:induction false} TotalUpdate(threads: seq<Pc>, t: nat, pc: Pc)
    requires t < |threads|
    ensures Total(threads[t := pc]) == Total(threads) - threads[t].Weight() + pc.Weight()
  {
    var m := |threads| - 1;
    if t < m {
      TotalUpdate(threads[..m], t, pc);
      assert threads[t := pc][..m] == threads[..m][t := pc];
    } else {
      assert threads[t := pc][..m] == threads[..m];
    }
  }

  /** The lock is held by the one thread inside; the nodes that left and those in the list are those pushed. */
  ghost predicate Safe(s: State) {
    && (forall i :: 0 <= i < |s.threads| ==> (s.threads[i].HoldsLock() <==> s.lock == Some(i)))
    && s.pushed == s.popped + s.items
  }

  /** While a consumer waits, there is a signal to come or a woken consumer for every node in the list. */
  ghost predicate Served(s: State) {
    AnyWaits(s.threads) ==> |s.items| <= Total(s.threads)
  }

  lemma MoveKeepsSafe(s: State, t: nat, w: nat)
    requires t < |s.threads| && Safe(s)
    ensures Safe(Move(s, t, w))
  {
  }

  lemma StepKeepsSafe(s: State, step: Step)
    requires Safe(s)
    ensures Safe(Do(s, step))
  {
    if step.Advance? && step.t < |s.threads| {
      MoveKeepsSafe(s, step.t, step.waiter);
    }
  }

  lemma WaitsBefore(threads: seq<Pc>, t: nat, pc: Pc)
    requires t < |threads| && !pc.Waiting? && AnyWaits(threads[t := pc])
    ensures AnyWaits(threads)
  {
    var i :| 0 <= i < |threads| && threads[t := pc][i].Waiting?;
    assert threads[i].Waiting?;
  }

  /** One thread changes its place, and does not come to wait with nodes in the list. */
  lemma ChangeKeepsServed(s: State, t: nat, r: State)
    requires t < |s.threads| == |r.threads| && Served(s) && r.threads == s.threads[t := r.threads[t]]
    requires r.threads[t].Waiting? ==> r.items == []
    requires |r.items| - r.threads[t].Weight() <= |s.items| - s.threads[t].Weight() || r.items == []
    ensures Served(r)
  {
    TotalUpdate(s.threads, t, r.threads[t]);
    if AnyWaits(r.threads) && r.items != [] {
      WaitsBefore(s.threads, t, r.threads[t]);
    }
  }

  lemma SignalKeepsServed(s: State, t: nat, w: nat)
    requires t < |s.threads| && w < |s.threads| && s.threads[t].PushSignal? && s.threads[w].Waiting? && Served(s)
    ensures Served(s.(threads := s.threads[t := Idle][w := Woken]))
  {
    TotalUpdate(s.threads, t, Idle);
    TotalUpdate(s.threads[t := Idle], w, Woken);
    assert AnyWaits(s.threads);
  }

  lemma MoveKeepsServed(s: State, t: nat, w: nat)
    requires t < |s.threads| && Served(s)
    ensures Served(Move(s, t, w))
  {
    hide Served, Total;
    var r := Move(s, t, w);
    if s.threads[t].PushSignal? {
      if w < |s.threads| && s.threads[w].Waiting? {
        SignalKeepsServed(s, t, w);
      } else if !AnyWaits(s.threads) {
        NoneWaits(s.threads, t);
        ServedIfNone(r);
      }
    } else {
      hide AnyWaits;
      if r != s {
        ChangeKeepsServed(s, t, r);
      }
    }
  }

  lemma NoneWaits(threads: seq<Pc>, t: nat)
    requires t < |threads| && !AnyWaits(threads)
    ensures !AnyWaits(threads[t := Idle])
  {
    if AnyWaits(threads[t := Idle]) {
      WaitsBefore(threads, t, Idle);
    }
  }

  lemma ServedIfNone(s: State)
    requires !AnyWaits(s.threads)
    ensures Served(s)
  {}

  lemma StepKeepsServed(s: State, step: Step)
    requires Served(s)
    ensures Served(Do(s, step))
  {
    hide Served, Total, AnyWaits, Move;
    var r := Do(s, step);
    match step
    case Advance(t, w) => if t < |s.threads| { MoveKeepsServed(s, t, w); }
    case SetDone => DoneIsServed(s);
    case _ => if r != s { ChangeKeepsServed(s, step.t, r); }
  }

  lemma DoneIsServed(s: State)
    requires Served(s)
    ensures Served(s.(done := true))
  {}

  // ---------------------------------------------------------------- what calls are given and return

  /** How many pushes bring node `x`. */
  function Coming(threads: seq<Pc>, x: nat): nat {
    if threads == [] then 0 else Coming(threads[..|threads| - 1], x) + threads[|threads| - 1].Brings(x)
  }

  lemma {:induction false} ComingUpdate(threads: seq<Pc>, t: nat, pc: Pc, x: nat)
    requires t < |threads|
    ensures Coming(threads[t := pc], x) == Coming(threads, x) - threads[t].Brings(x) + pc.Brings(x)
  {
    hide Pc.Brings;
    var m := |threads| - 1;
    if t < m {
      ComingUpdate(threads[..m], t, pc, x);
      assert threads[t := pc][..m] == threads[..m][t := pc];
    } else {
      assert threads[t := pc][..m] == threads[..m];
    }
  }

  lemma {:induction false} NoneComing(threads: seq<Pc>, x: nat)
    requires forall i :: 0 <= i < |threads| ==> threads[i].Idle?
    ensures Coming(threads, x) == 0
  {
    if threads != [] {
      NoneComing(threads[..|threads| - 1], x);
    }
  }

  /** The node that the thread inside has taken and not returned yet. */
  function InHand(s: State): seq<nat> {
    if s.lock.Some? && s.lock.value < |s.threads| then
      var pc := s.threads[s.lock.value];
      if pc.PopHeld? && pc.result.Some? then [pc.result.value] else []
    else []
  }

  /** Every node that a push was given is on its way or was put into the list, just so often. */
  ghost predicate Accounted(s: State) {
    forall x: nat :: s.given[x] == multiset(s.pushed)[x] + Coming(s.threads, x)
  }

  /**
   The pops have returned what was taken out, in that order, but for the node in hand; and one is about to return
   nothing only when the run is to end and the list is empty.
   */
  ghost predicate Honest(s: State) {
    && s.popped == s.returned + InHand(s)
    && forall i :: 0 <= i < |s.threads| && s.threads[i] == PopHeld(None) ==> s.done && s.items == []
  }

  lemma PushedMore(pushed: seq<nat>, node: nat, x: nat)
    ensures multiset(pushed + [node])[x] == multiset(pushed)[x] + if node == x then 1 else 0
  {}

  /** One thread changes its place, and what it brought it still brings, or has put into the list. */
  lemma ChangeKeepsComing(s: State, t: nat, r: State, x: nat)
    requires t < |s.threads| == |r.threads| && r.threads == s.threads[t := r.threads[t]] && r.given == s.given
    requires s.threads[t].Brings(x) + multiset(s.pushed)[x] == r.threads[t].Brings(x) + multiset(r.pushed)[x]
    requires s.given[x] == multiset(s.pushed)[x] + Coming(s.threads, x)
    ensures r.given[x] == multiset(r.pushed)[x] + Coming(r.threads, x)
  {
    hide Coming, Pc.Brings;
    ComingUpdate(s.threads, t, r.threads[t], x);
  }

  lemma SignalKeepsComing(threads: seq<Pc>, t: nat, w: nat, x: nat)
    requires t < |threads| && w < |threads| && threads[t].PushSignal? && threads[w].Waiting?
    ensures Coming(threads[t := Idle][w := Woken], x) == Coming(threads, x)
  {
    hide Coming;
    ComingUpdate(threads, t, Idle, x);
    ComingUpdate(threads[t := Idle], w, Woken, x);
  }

  /** But for the end of a push, a step touches neither the nodes given nor those put into the list. */
  lemma MoveShape(s: State, t: nat, w: nat, x: nat)
    requires t < |s.threads|
    ensures var r := Move(s, t, w);
            && r.given == s.given && |r.threads| == |s.threads|
            && (if s.threads[t].PushSignal? && w < |s.threads| && s.threads[w].Waiting?
                then r.pushed == s.pushed && r.threads == s.threads[t := Idle][w := Woken]
                else
                  && r.threads == s.threads[t := r.threads[t]]
                  && if s.threads[t].PushIn?
                     then r.pushed == s.pushed + [s.threads[t].node] && r.threads[t] == PushHeld
                     else r.pushed == s.pushed && r.threads[t].Brings(x) == s.threads[t].Brings(x))
  {
    hide AnyWaits;
  }

  lemma MoveKeepsComing(s: State, t: nat, w: nat, x: nat)
    requires t < |s.threads| && s.given[x] == multiset(s.pushed)[x] + Coming(s.threads, x)
    ensures var r := Move(s, t, w); r.given[x] == multiset(r.pushed)[x] + Coming(r.threads, x)
  {
    hide AnyWaits, Coming, Move;
    var r := Move(s, t, w);
    MoveShape(s, t, w, x);
    if s.threads[t].PushSignal? && w < |s.threads| && s.threads[w].Waiting? {
      SignalKeepsComing(s.threads, t, w, x);
    } else {
      if s.threads[t].PushIn? {
        PushedMore(s.pushed, s.threads[t].node, x);
      }
      ChangeKeepsComing(s, t, r, x);
    }
  }

  lemma StepKeepsAccounted(s: State, step: Step)
    requires Accounted(s)
    ensures Accounted(Do(s, step))
  {
    hide AnyWaits, Coming, Move;
    var r := Do(s, step);
    forall x: nat ensures r.given[x] == multiset(r.pushed)[x] + Coming(r.threads, x) {
      assert s.given[x] == multiset(s.pushed)[x] + Coming(s.threads, x);
      match step
      case Advance(t, w) => if t < |s.threads| { MoveKeepsComing(s, t, w, x); }
      case SetDone =>
      case _ => if r != s { ComingUpdate(s.threads, step.t, r.threads[step.t], x); }
    }
  }

  lemma MoveKeepsHonest(s: State, t: nat, w: nat)
    requires t < |s.threads| && Safe(s) && Honest(s)
    ensures Honest(Move(s, t, w))
  {
    hide AnyWaits;
  }

  lemma StepKeepsHonest(s: State, step: Step)
    requires Safe(s) && Honest(s)
    ensures Honest(Do(s, step))
  {
    hide AnyWaits, Move;
    if step.Advance? && step.t < |s.threads| {
      MoveKeepsHonest(s, step.t, step.waiter);
    }
  }

  /**
   In every interleaving: one thread at most is inside, nodes leave in the order in which they were pushed, and while
   a consumer waits the list is not longer than the signals to come and the consumers woken. What pushes are given goes
   into the list, and pops return what is taken out of it, in that order.
   */
  lemma {:induction false} EveryRun(n: nat, steps: seq<Step>)
    ensures var s := Run(n, steps);
            Safe(s) && s.popped <= s.pushed && s.items == s.pushed[|s.popped|..] && Served(s) && Honest(s) && Accounted(s)
  {
    if steps == [] {
      forall x: nat ensures Coming(Init(n).threads, x) == 0 {
        NoneComing(Init(n).threads, x);
      }
    } else {
      var m := |steps| - 1;
      EveryRun(n, steps[..m]);
      StepKeepsSafe(Run(n, steps[..m]), steps[m]);
      StepKeepsServed(Run(n, steps[..m]), steps[m]);
      StepKeepsHonest(Run(n, steps[..m]), steps[m]);
      StepKeepsAccounted(Run(n, steps[..m]), steps[m]);
    }
  }

  /** No wake-up is lost: when every push is over and no consumer is on its way, one that waits has nothing to take. */
  lemma NoLostWakeUp(n: nat, steps: seq<Step>)
    requires var s := Run(n, steps); AnyWaits(s.threads) && Total(s.threads) == 0
    ensures Run(n, steps).items == []
  {
    EveryRun(n, steps);
  }
}
