/** The Michael & Scott queue as a state machine: one step for every shared read and every compare-and-swap
    (_attic_/MSQueue.hpp). */
module MSQueue {
  const NULL: nat := 0

  /** A versioned pointer. Reading or swapping one is a single step; versions do not wrap. */
  datatype Ptr = Ptr(node: nat, ver: nat)

  /** Where a thread is: idle, or about to take the named step with the locals it has read so far. again is
      the second read of Tail, through which next is read. */
  datatype Thread =
    | Idle
    | EnqReadTail(data: nat)
    | EnqReadAgain(data: nat, tail: Ptr)
    | EnqReadNext(data: nat, tail: Ptr, again: Ptr)
    | EnqCheck(data: nat, tail: Ptr, again: Ptr, next: Ptr)
    | EnqLink(data: nat, tail: Ptr, next: Ptr)
    | EnqHelp(data: nat, tail: Ptr, next: Ptr)
    | EnqSwing(data: nat, tail: Ptr)
    | DeqReadHead
    | DeqReadTail(head: Ptr)
    | DeqReadNext(head: Ptr, tail: Ptr)
    | DeqCheck(head: Ptr, tail: Ptr, next: Ptr)
    | DeqHelp(tail: Ptr, next: Ptr)
    | DeqSwing(head: Ptr, next: Ptr)

  /** Shared memory, the threads, and what has been enqueued and dequeued so far. calls[k] counts the calls
      thread k has begun. */
  datatype State = State(
    head: Ptr, tail: Ptr, next: map<nat, Ptr>, threads: seq<Thread>,
    enqueued: seq<nat>, dequeued: seq<nat>, dummy: nat, calls: seq<nat>)

  /** CAS(destination, expected, replacement) on Tail and Head. */
  function CasTail(s: State, expected: Ptr, node: nat): State {
    if s.tail == expected then s.(tail := Ptr(node, expected.ver + 1)) else s
  }

  function With(s: State, k: nat, t: Thread): State
    requires k < |s.threads|
  {
    s.(threads := s.threads[k := t])
  }

  function NextOf(s: State, node: nat): Ptr {
    if node in s.next then s.next[node] else Ptr(NULL, 0)
  }

  /** The step thread k takes. */
  function StepOf(s: State, k: nat): State
    requires k < |s.threads|
  {
    match s.threads[k]
    case Idle => s
    case EnqReadTail(data) => With(s, k, EnqReadAgain(data, s.tail))
    case EnqReadAgain(data, tail) => With(s, k, EnqReadNext(data, tail, s.tail))
    case EnqReadNext(data, tail, again) => With(s, k, EnqCheck(data, tail, again, NextOf(s, again.node)))
    case EnqCheck(data, tail, again, next) =>
      if tail != s.tail then With(s, k, EnqReadTail(data))
      else if next.node == NULL then With(s, k, EnqLink(data, tail, next))
      else With(s, k, EnqHelp(data, tail, next))
    case EnqLink(data, tail, next) =>
      if NextOf(s, tail.node) == next then
        With(s.(next := s.next[tail.node := Ptr(data, next.ver + 1)], enqueued := s.enqueued + [data]), k,
             EnqSwing(data, tail))
      else With(s, k, EnqReadTail(data))
    case EnqHelp(data, tail, next) => With(CasTail(s, tail, next.node), k, EnqReadTail(data))
    case EnqSwing(data, tail) => With(CasTail(s, tail, data), k, Idle)
    case DeqReadHead => With(s, k, DeqReadTail(s.head))
    case DeqReadTail(head) => With(s, k, DeqReadNext(head, s.tail))
    case DeqReadNext(head, tail) => With(s, k, DeqCheck(head, tail, NextOf(s, head.node)))
    case DeqCheck(head, tail, next) =>
      if head != s.head then With(s, k, DeqReadHead)
      else if head.node == tail.node then
        (if next.node == NULL then With(s, k, Idle) else With(s, k, DeqHelp(tail, next)))
      else With(s, k, DeqSwing(head, next))
    case DeqHelp(tail, next) => With(CasTail(s, tail, next.node), k, DeqReadHead)
    case DeqSwing(head, next) =>
      if s.head == head then
        With(s.(head := Ptr(next.node, head.ver + 1), dequeued := s.dequeued + [next.node]), k, Idle)
      else With(s, k, DeqReadHead)
  }

  /** The data node of a call that has not linked it yet. */
  function Private(t: Thread): nat {
    match t
    case EnqReadTail(data) => data
    case EnqReadAgain(data, _) => data
    case EnqReadNext(data, _, _) => data
    case EnqCheck(data, _, _, _) => data
    case EnqLink(data, _, _) => data
    case EnqHelp(data, _, _) => data
    case _ => NULL
  }

  /** A new node: no thread holds it and it has not been in the queue. */
  predicate IsNew(s: State, data: nat) {
    && data != NULL && data != s.dummy && data !in s.enqueued
    && forall j :: 0 <= j < |s.threads| ==> Private(s.threads[j]) != data
  }

  /** Any thread may step; an idle thread may call Enqueue with a new node whose next is null, or Dequeue. */
  ghost predicate Step(s: State, s': State) {
    exists k :: 0 <= k < |s.threads| && StepBy(s, s', k)
  }

  ghost predicate StepBy(s: State, s': State, k: nat)
    requires k < |s.threads|
  {
    || (s.threads[k] != Idle && s' == StepOf(s, k))
    || (s.threads[k] == Idle && k < |s.calls| && s' == With(s, k, DeqReadHead).(calls := s.calls[k := s.calls[k] + 1]))
    || (s.threads[k] == Idle && k < |s.calls| && exists data :: BeginsEnqueue(s, s', k, data))
  }

  ghost predicate BeginsEnqueue(s: State, s': State, k: nat, data: nat)
    requires k < |s.threads|
  {
    && IsNew(s, data) && k < |s.calls|
    && s' == With(s, k, EnqReadTail(data)).(next := s.next[data := Ptr(NULL, 0)], calls := s.calls[k := s.calls[k] + 1])
  }

  ghost predicate Init(s: State) {
    && s.dummy != NULL && s.head == s.tail == Ptr(s.dummy, 0) && s.next == map[s.dummy := Ptr(NULL, 0)]
    && (forall k :: 0 <= k < |s.threads| ==> s.threads[k] == Idle)
    && s.enqueued == [] && s.dequeued == [] && |s.calls| == |s.threads|
  }

  // ---- The invariant ----

  /** Every node that was ever linked, in link order. */
  ghost function Chain(s: State): seq<nat> { [s.dummy] + s.enqueued }

  /** p is node number p.ver of the chain. */
  ghost predicate Names(chain: seq<nat>, p: Ptr) {
    p.ver < |chain| && p.node == chain[p.ver]
  }

  /** p is the node after number v, or a null that was never linked. */
  ghost predicate Follows(chain: seq<nat>, p: Ptr, v: nat) {
    if p.node == NULL then p.ver == 0 else v + 1 < |chain| && p.node == chain[v + 1]
  }

  /** What a thread's locals still mean, whatever other threads have done since it read them. */
  ghost predicate LocalsOk(chain: seq<nat>, h: nat, t: nat, th: Thread) {
    match th
    case Idle => true
    case EnqReadTail(data) => data != NULL
    case EnqReadAgain(data, tail) => data != NULL && Names(chain, tail) && tail.ver <= t
    case EnqReadNext(data, tail, again) => data != NULL && Names(chain, tail) && Names(chain, again)
        && tail.ver <= again.ver <= t
    case EnqCheck(data, tail, again, next) =>
      data != NULL && Names(chain, tail) && Names(chain, again) && tail.ver <= again.ver <= t
      && Follows(chain, next, again.ver)
    case EnqLink(data, tail, next) => data != NULL && Names(chain, tail) && tail.ver <= t && next == Ptr(NULL, 0)
    case EnqHelp(data, tail, next) => data != NULL && Names(chain, tail) && tail.ver <= t && next.node != NULL
        && Follows(chain, next, tail.ver)
    case EnqSwing(data, tail) => Names(chain, tail) && tail.ver <= t && data != NULL
        && Follows(chain, Ptr(data, 0), tail.ver)
    case DeqReadHead => true
    case DeqReadTail(head) => Names(chain, head) && head.ver <= h
    case DeqReadNext(head, tail) => Names(chain, head) && Names(chain, tail) && head.ver <= h
        && head.ver <= tail.ver <= t
    case DeqCheck(head, tail, next) =>
      && Names(chain, head) && Names(chain, tail) && head.ver <= h && head.ver <= tail.ver <= t
      && Follows(chain, next, head.ver) && (head.ver < tail.ver ==> next.node != NULL)
    case DeqHelp(tail, next) => Names(chain, tail) && tail.ver <= t && next.node != NULL
        && Follows(chain, next, tail.ver)
    case DeqSwing(head, next) =>
      Names(chain, head) && head.ver <= h && head.ver < t && next.node != NULL && Follows(chain, next, head.ver)
  }

  ghost predicate Distinct(s: seq<nat>) {
    forall i, j :: 0 <= i < j < |s| ==> s[i] != s[j]
  }

  /** The chain is linked: each node's next names the one after it, and the last one's is null. */
  ghost predicate Linked(chain: seq<nat>, next: map<nat, Ptr>) {
    && Distinct(chain) && |chain| > 0
    && (forall i :: 0 <= i < |chain| ==> chain[i] != NULL && chain[i] in next)
    && (forall i :: 0 <= i < |chain| - 1 ==> next[chain[i]] == Ptr(chain[i + 1], 1))
    && next[chain[|chain| - 1]] == Ptr(NULL, 0)
  }

  /** Nodes of calls that have not linked them: outside the chain, null next, one owner each. */
  ghost predicate PrivateOk(chain: seq<nat>, next: map<nat, Ptr>, threads: seq<Thread>) {
    && (forall k :: 0 <= k < |threads| && Private(threads[k]) != NULL ==>
          Private(threads[k]) !in chain && Private(threads[k]) in next && next[Private(threads[k])] == Ptr(NULL, 0))
    && forall j, k :: 0 <= j < k < |threads| && Private(threads[j]) != NULL ==>
         Private(threads[j]) != Private(threads[k])
  }

  ghost predicate Inv(s: State) {
    var chain := Chain(s);
    && |s.calls| == |s.threads|
    && Linked(chain, s.next)
    && Names(chain, s.head) && Names(chain, s.tail)
    && s.head.ver <= s.tail.ver && |chain| <= s.tail.ver + 2
    && s.dequeued == chain[1..s.head.ver + 1]
    && (forall k :: 0 <= k < |s.threads| ==> LocalsOk(chain, s.head.ver, s.tail.ver, s.threads[k]))
    && PrivateOk(chain, s.next, s.threads)
  }

  lemma InitInv(s: State)
    requires Init(s)
    ensures Inv(s)
  {}

  /** What one thread has read stays meaningful while the chain grows and Head and Tail advance. */
  lemma LocalsStay(chain: seq<nat>, chain': seq<nat>, h: nat, h': nat, t: nat, t': nat, th: Thread)
    requires LocalsOk(chain, h, t, th) && chain <= chain' && h <= h' && t <= t'
    ensures LocalsOk(chain', h', t', th)
  {}

  /** A step that only moves thread k on. */
  lemma LocalStep(s: State, k: nat, th: Thread)
    requires Inv(s) && k < |s.threads| && LocalsOk(Chain(s), s.head.ver, s.tail.ver, th)
    requires Private(th) == Private(s.threads[k]) || Private(th) == NULL
    ensures Inv(With(s, k, th))
  {
    hide LocalsOk, Linked, Names;
    var s' := With(s, k, th);
    assert Chain(s') == Chain(s);
    PrivateMoves(Chain(s), s.next, s.threads, k, th);
  }

  lemma PrivateMoves(chain: seq<nat>, next: map<nat, Ptr>, threads: seq<Thread>, k: nat, th: Thread)
    requires PrivateOk(chain, next, threads) && k < |threads|
    requires Private(th) == Private(threads[k]) || Private(th) == NULL
    ensures PrivateOk(chain, next, threads[k := th])
  {
    hide Private;
    var threads' := threads[k := th];
    forall i, j | 0 <= i < j < |threads'| && Private(threads'[i]) != NULL
      ensures Private(threads'[i]) != Private(threads'[j])
    {
      assert Private(threads[i]) != Private(threads[j]);
    }
  }

  /** Swinging Tail to the node after it, if it is still where the thread saw it. */
  lemma TailStep(s: State, tail: Ptr, node: nat)
    requires Inv(s) && Names(Chain(s), tail) && node != NULL && Follows(Chain(s), Ptr(node, 0), tail.ver)
    ensures Inv(CasTail(s, tail, node)) && Chain(CasTail(s, tail, node)) == Chain(s)
    ensures CasTail(s, tail, node).tail.ver >= s.tail.ver && CasTail(s, tail, node).head == s.head
    ensures CasTail(s, tail, node).threads == s.threads
  {
    hide LocalsOk, Linked, PrivateOk;
    var s' := CasTail(s, tail, node);
    forall k | 0 <= k < |s.threads| ensures LocalsOk(Chain(s'), s'.head.ver, s'.tail.ver, s'.threads[k]) {
      LocalsStay(Chain(s), Chain(s'), s.head.ver, s'.head.ver, s.tail.ver, s'.tail.ver, s.threads[k]);
    }
  }

  /** Two pointers that name chain nodes are the same node exactly when their versions agree. */
  lemma SameNode(chain: seq<nat>, p: Ptr, q: Ptr)
    requires Distinct(chain) && Names(chain, p) && Names(chain, q)
    ensures p.node == q.node <==> p.ver == q.ver
  {}

  /** The node a thread reads through a chain node is null or the chain's next, and null only at the end. */
  lemma ReadNextOk(s: State, p: Ptr)
    requires Inv(s) && Names(Chain(s), p)
    ensures Follows(Chain(s), NextOf(s, p.node), p.ver)
    ensures NextOf(s, p.node).node == NULL <==> p.ver + 1 == |Chain(s)|
  {
    hide LocalsOk, PrivateOk;
    var chain := Chain(s);
    if p.ver + 1 < |chain| {
      assert s.next[chain[p.ver]] == Ptr(chain[p.ver + 1], 1);
    }
  }

  /** A successful link appends the node to the chain. */
  lemma LinkStep(s: State, k: nat)
    requires Inv(s) && k < |s.threads| && s.threads[k].EnqLink?
    requires NextOf(s, s.threads[k].tail.node) == s.threads[k].next
    ensures Inv(StepOf(s, k)) && Chain(StepOf(s, k)) == Chain(s) + [s.threads[k].data]
  {
    hide LocalsOk, PrivateOk, Linked;
    var th := s.threads[k];
    var data, tail := th.data, th.tail;
    var chain, s' := Chain(s), StepOf(s, k);
    LinkAtEnd(s, k);
    assert Chain(s') == chain + [data];
    LinkGrows(chain, s.next, s.threads, k, data, tail);
    forall j | 0 <= j < |s.threads| ensures LocalsOk(Chain(s'), s'.head.ver, s'.tail.ver, s'.threads[j]) {
      if j != k {
        LocalsStay(chain, Chain(s'), s.head.ver, s'.head.ver, s.tail.ver, s'.tail.ver, s.threads[j]);
      } else {
        SwingOk(chain, data, tail, s.head.ver, s.tail.ver);
      }
    }
  }

  // The node linked to was the last one, and Tail had reached it.
  lemma LinkAtEnd(s: State, k: nat)
    requires Inv(s) && k < |s.threads| && s.threads[k].EnqLink?
    requires NextOf(s, s.threads[k].tail.node) == s.threads[k].next
    ensures var tail := s.threads[k].tail; Names(Chain(s), tail) && tail.ver + 1 == |Chain(s)| && tail.ver == s.tail.ver
    ensures s.threads[k].data != NULL && s.threads[k].next == Ptr(NULL, 0)
  {
    hide PrivateOk;
    assert LocalsOk(Chain(s), s.head.ver, s.tail.ver, s.threads[k]);
    ReadNextOk(s, s.threads[k].tail);
  }

  lemma SwingOk(chain: seq<nat>, data: nat, tail: Ptr, h: nat, t: nat)
    requires Names(chain, tail) && tail.ver + 1 == |chain| && tail.ver <= t && data != NULL
    ensures LocalsOk(chain + [data], h, t, EnqSwing(data, tail))
  {}

  lemma LinkGrows(chain: seq<nat>, next: map<nat, Ptr>, threads: seq<Thread>, k: nat, data: nat, tail: Ptr)
    requires Linked(chain, next) && PrivateOk(chain, next, threads)
    requires k < |threads| && Private(threads[k]) == data != NULL
    requires Names(chain, tail) && tail.ver + 1 == |chain|
    ensures var next' := next[tail.node := Ptr(data, 1)];
            && Linked(chain + [data], next') && PrivateOk(chain + [data], next', threads[k := EnqSwing(data, tail)])
  {
    hide Private;
    var chain', next', threads' := chain + [data], next[tail.node := Ptr(data, 1)], threads[k := EnqSwing(data, tail)];
    assert Private(threads'[k]) == NULL by {
      SwingPrivate(data, tail);
    }
    assert tail.node in chain;
    forall j | 0 <= j < |threads'| && Private(threads'[j]) != NULL
      ensures Private(threads'[j]) !in chain' && Private(threads'[j]) in next'
      ensures next'[Private(threads'[j])] == Ptr(NULL, 0)
    {
      assert j != k;
      assert Private(threads[j]) != Private(threads[k]);
    }
  }

  lemma SwingPrivate(data: nat, tail: Ptr)
    ensures Private(EnqSwing(data, tail)) == NULL
  {}

  /** A successful dequeue moves Head to the next node and hands that node out. */
  lemma HeadStep(s: State, k: nat)
    requires Inv(s) && k < |s.threads| && s.threads[k].DeqSwing? && s.head == s.threads[k].head
    ensures Inv(StepOf(s, k)) && Chain(StepOf(s, k)) == Chain(s)
  {
    hide LocalsOk, PrivateOk, Linked;
    var th := s.threads[k];
    var chain, s' := Chain(s), StepOf(s, k);
    assert Names(chain, s'.head) && s'.head.ver <= s.tail.ver by {
      SwingLocals(chain, s.head.ver, s.tail.ver, th);
    }
    assert chain[1..s'.head.ver + 1] == chain[1..s.head.ver + 1] + [chain[s'.head.ver]];
    forall j | 0 <= j < |s.threads| ensures LocalsOk(chain, s'.head.ver, s'.tail.ver, s'.threads[j]) {
      if j != k {
        LocalsStay(chain, chain, s.head.ver, s'.head.ver, s.tail.ver, s'.tail.ver, s.threads[j]);
      } else {
        IdleLocals(chain, s'.head.ver, s'.tail.ver);
      }
    }
    PrivateMoves(chain, s.next, s.threads, k, Idle);
  }

  lemma SwingLocals(chain: seq<nat>, h: nat, t: nat, th: Thread)
    requires th.DeqSwing? && LocalsOk(chain, h, t, th)
    ensures th.next.node != NULL && th.head.ver + 1 < |chain|
    ensures th.next.node == chain[th.head.ver + 1] && th.head.ver < t
  {}

  lemma IdleLocals(chain: seq<nat>, h: nat, t: nat)
    ensures LocalsOk(chain, h, t, Idle)
  {}

  /** Every step of every thread keeps the invariant. */
  lemma {:induction false} StepKeeps(s: State, k: nat)
    requires Inv(s) && k < |s.threads|
    ensures Inv(StepOf(s, k)) && Chain(s) <= Chain(StepOf(s, k))
    ensures s.head.ver <= StepOf(s, k).head.ver && s.tail.ver <= StepOf(s, k).tail.ver
  {
    hide Linked, PrivateOk, NextOf;
    var th, chain := s.threads[k], Chain(s);
    assert LocalsOk(chain, s.head.ver, s.tail.ver, th);
    match th
    case Idle =>
    case EnqReadTail(data) => LocalStep(s, k, EnqReadAgain(data, s.tail));
    case EnqReadAgain(data, tail) => LocalStep(s, k, EnqReadNext(data, tail, s.tail));
    case EnqReadNext(data, tail, again) =>
      ReadNextOk(s, again);
      LocalStep(s, k, EnqCheck(data, tail, again, NextOf(s, again.node)));
    case EnqCheck(data, tail, again, next) =>
      CheckKeeps(s, k);
    case EnqLink(data, tail, next) =>
      if NextOf(s, tail.node) == next {
        LinkStep(s, k);
      } else {
        LocalStep(s, k, EnqReadTail(data));
      }
    case EnqHelp(data, tail, next) =>
      TailStep(s, tail, next.node);
      LocalStep(CasTail(s, tail, next.node), k, EnqReadTail(data));
    case EnqSwing(data, tail) =>
      TailStep(s, tail, data);
      LocalStep(CasTail(s, tail, data), k, Idle);
    case DeqReadHead => LocalStep(s, k, DeqReadTail(s.head));
    case DeqReadTail(head) => LocalStep(s, k, DeqReadNext(head, s.tail));
    case DeqReadNext(head, tail) =>
      ReadNextOk(s, head);
      LocalStep(s, k, DeqCheck(head, tail, NextOf(s, head.node)));
    case DeqCheck(head, tail, next) =>
      CheckKeeps(s, k);
    case DeqHelp(tail, next) =>
      TailStep(s, tail, next.node);
      LocalStep(CasTail(s, tail, next.node), k, DeqReadHead);
    case DeqSwing(head, next) =>
      if s.head == head {
        HeadStep(s, k);
      } else {
        LocalStep(s, k, DeqReadHead);
      }
  }

  // The re-check of Tail or Head: the two reads it brackets saw one and the same node.
  lemma CheckKeeps(s: State, k: nat)
    requires Inv(s) && k < |s.threads| && (s.threads[k].EnqCheck? || s.threads[k].DeqCheck?)
    ensures Inv(StepOf(s, k)) && Chain(s) <= Chain(StepOf(s, k))
    ensures s.head.ver <= StepOf(s, k).head.ver && s.tail.ver <= StepOf(s, k).tail.ver
  {
    hide PrivateOk;
    var th, chain := s.threads[k], Chain(s);
    assert LocalsOk(chain, s.head.ver, s.tail.ver, th);
    if th.EnqCheck? {
      LocalStep(s, k, EnqReadTail(th.data));
      if th.tail == s.tail {
        if th.next.node == NULL {
          LocalStep(s, k, EnqLink(th.data, th.tail, th.next));
        } else {
          LocalStep(s, k, EnqHelp(th.data, th.tail, th.next));
        }
      }
    } else {
      SameNode(chain, th.head, th.tail);
      LocalStep(s, k, DeqReadHead);
      LocalStep(s, k, Idle);
      if th.head == s.head && th.head.node == th.tail.node && th.next.node != NULL {
        LocalStep(s, k, DeqHelp(th.tail, th.next));
      }
      if th.head == s.head && th.head.node != th.tail.node {
        LocalStep(s, k, DeqSwing(th.head, th.next));
      }
    }
  }

  /** Beginning a call keeps the invariant too. */
  lemma BeginKeeps(s: State, s': State, k: nat, data: nat)
    requires Inv(s) && k < |s.threads| && s.threads[k] == Idle && BeginsEnqueue(s, s', k, data)
    ensures Inv(s') && Chain(s') == Chain(s) && s'.head == s.head && s'.tail == s.tail
  {
    hide LocalsOk, Private;
    var chain, th := Chain(s), EnqReadTail(data);
    assert Chain(s') == chain && data !in chain;
    assert Private(th) == data by {
      BeginPrivate(data);
    }
    forall j | 0 <= j < |s'.threads| ensures LocalsOk(chain, s'.head.ver, s'.tail.ver, s'.threads[j]) {
      if j == k {
        BeginLocals(chain, s.head.ver, s.tail.ver, data);
      }
    }
  }

  lemma BeginPrivate(data: nat)
    ensures Private(EnqReadTail(data)) == data
  {}

  lemma BeginLocals(chain: seq<nat>, h: nat, t: nat, data: nat)
    requires data != NULL
    ensures LocalsOk(chain, h, t, EnqReadTail(data))
  {}

  lemma AnyStepKeeps(s: State, s': State, k: nat)
    requires Inv(s) && k < |s.threads| && StepBy(s, s', k)
    ensures Inv(s') && Chain(s) <= Chain(s') && s.head.ver <= s'.head.ver && s.tail.ver <= s'.tail.ver
    ensures forall j :: 0 <= j < |s.threads| && j != k ==> s'.threads[j] == s.threads[j] && s'.calls[j] == s.calls[j]
    ensures |s'.threads| == |s.threads| && s'.dummy == s.dummy
  {
    hide LocalsOk, Linked, PrivateOk, Names;
    if s.threads[k] != Idle {
      StepKeeps(s, k);
    } else if s' == With(s, k, DeqReadHead).(calls := s.calls[k := s.calls[k] + 1]) {
      DequeueBegins(s, k);
    } else {
      var data :| BeginsEnqueue(s, s', k, data);
      BeginKeeps(s, s', k, data);
    }
  }

  lemma DequeueBegins(s: State, k: nat)
    requires Inv(s) && k < |s.threads| && s.threads[k] == Idle && k < |s.calls|
    ensures Inv(With(s, k, DeqReadHead).(calls := s.calls[k := s.calls[k] + 1]))
  {
    hide Linked, Names;
    LocalStep(s, k, DeqReadHead);
  }

  // ---- Whole runs ----

  /** A run: any interleaving of any number of calls. */
  ghost predicate Run(trace: seq<State>) {
    && |trace| > 0 && Init(trace[0])
    && forall i :: 0 <= i < |trace| - 1 ==> Step(trace[i], trace[i + 1])
  }

  lemma {:induction false} RunInv(trace: seq<State>, i: nat)
    requires Run(trace) && i < |trace|
    ensures Inv(trace[i]) && |trace[i].threads| == |trace[0].threads|
  {
    hide Inv, StepBy;
    if i == 0 {
      InitInv(trace[0]);
    } else {
      RunInv(trace, i - 1);
      assert Step(trace[i - 1], trace[i - 1 + 1]);
      var k :| 0 <= k < |trace[i - 1].threads| && StepBy(trace[i - 1], trace[i], k);
      AnyStepKeeps(trace[i - 1], trace[i], k);
    }
  }

  /** The nodes after Head: what is in the queue. */
  ghost function Contents(s: State): seq<nat>
    requires s.head.ver <= |s.enqueued|
  {
    s.enqueued[s.head.ver..]
  }

  /** In every state of every run: what was enqueued is what was dequeued, then the chain after Head; Tail
      names the last node or the one before it, and is never behind Head. */
  lemma FirstInFirstOut(trace: seq<State>, i: nat)
    requires Run(trace) && i < |trace|
    ensures var s := trace[i];
            && s.head.ver <= |s.enqueued| && s.enqueued == s.dequeued + Contents(s)
            && s.head.node == Chain(s)[s.head.ver]
            && (s.tail.ver == |s.enqueued| || s.tail.ver + 1 == |s.enqueued|)
            && s.tail.node == Chain(s)[s.tail.ver] && s.head.ver <= s.tail.ver
  {
    RunInv(trace, i);
    var s := trace[i];
    hide LocalsOk, Linked, PrivateOk;
    assert s.dequeued == Chain(s)[1..s.head.ver + 1] == s.enqueued[..s.head.ver];
  }

  /** A dequeue that succeeds hands out the oldest node not yet dequeued. */
  lemma DequeuesOldest(s: State, k: nat)
    requires Inv(s) && k < |s.threads| && s.threads[k].DeqSwing? && s.head == s.threads[k].head
    ensures |s.dequeued| < |s.enqueued| && s.threads[k].next.node == s.enqueued[|s.dequeued|]
    ensures StepOf(s, k).dequeued == s.dequeued + [s.enqueued[|s.dequeued|]]
  {
    hide Linked, PrivateOk;
    assert LocalsOk(Chain(s), s.head.ver, s.tail.ver, s.threads[k]);
  }

  predicate InDequeue(t: Thread) {
    t.DeqReadHead? || t.DeqReadTail? || t.DeqReadNext? || t.DeqCheck? || t.DeqHelp? || t.DeqSwing?
  }

  ghost predicate Empty(s: State) {
    s.head.ver == |s.enqueued|
  }

  /** Thread k is in its current Dequeue call at state j, and the queue is empty there. */
  ghost predicate EmptyDuring(trace: seq<State>, i: nat, j: nat, k: nat) {
    && j <= i < |trace| && k < |trace[i].threads| && k < |trace[j].threads|
    && k < |trace[i].calls| && k < |trace[j].calls|
    && Empty(trace[j]) && InDequeue(trace[j].threads[k]) && trace[j].calls[k] == trace[i].calls[k]
  }

  // Reading a null next through Head's node is possible only while the queue is empty.
  lemma NullReadMeansEmpty(s: State, k: nat)
    requires Inv(s) && k < |s.threads| && s.threads[k].DeqReadNext? && NextOf(s, s.threads[k].head.node).node == NULL
    ensures Empty(s)
  {
    hide Linked, PrivateOk;
    assert LocalsOk(Chain(s), s.head.ver, s.tail.ver, s.threads[k]);
    ReadNextOk(s, s.threads[k].head);
  }

  lemma {:induction false} NullSeen(trace: seq<State>, i: nat, k: nat)
    requires Run(trace) && i < |trace| && k < |trace[i].threads|
    requires trace[i].threads[k].DeqCheck? && trace[i].threads[k].next.node == NULL
    ensures exists j :: EmptyDuring(trace, i, j, k)
  {
    hide Inv, Empty, StepBy;
    RunInv(trace, i);
    assert i > 0;
    var s, s' := trace[i - 1], trace[i];
    RunInv(trace, i - 1);
    assert Step(trace[i - 1], trace[i - 1 + 1]);
    var m :| 0 <= m < |s.threads| && StepBy(s, s', m);
    AnyStepKeeps(s, s', m);
    CallsLength(s);
    CallsLength(s');
    if m != k {
      NullSeen(trace, i - 1, k);
      var j :| EmptyDuring(trace, i - 1, j, k);
      assert EmptyDuring(trace, i, j, k);
    } else {
      ReachesCheck(s, s', k);
      NullReadMeansEmpty(s, k);
      assert EmptyDuring(trace, i, i - 1, k);
    }
  }

  lemma CallsLength(s: State)
    requires Inv(s)
    ensures |s.calls| == |s.threads|
  {}

  // The only step into DeqCheck is the read of next.
  lemma ReachesCheck(s: State, s': State, k: nat)
    requires k < |s.threads| && StepBy(s, s', k) && k < |s'.threads| && s'.threads[k].DeqCheck?
    ensures s.threads[k].DeqReadNext? && s'.calls == s.calls
    ensures s'.threads[k].next == NextOf(s, s.threads[k].head.node)
  {}

  /** A Dequeue that returns 0: the queue was empty at some instant of that very call. */
  lemma EmptyReturn(trace: seq<State>, i: nat, k: nat)
    requires Run(trace) && i + 1 < |trace| && k < |trace[i].threads|
    requires trace[i].threads[k].DeqCheck? && trace[i + 1] == StepOf(trace[i], k) && trace[i + 1].threads[k] == Idle
    ensures exists j :: EmptyDuring(trace, i, j, k)
  {
    NullSeen(trace, i, k);
  }

  /** A thread goes round its loop again only because another thread moved Head or Tail after the values it compares
      were read, or because a node had been linked past the Tail it read, which it then helps along. */
  lemma RetryMeansProgress(s: State, k: nat)
    requires Inv(s) && k < |s.threads|
    ensures s.threads[k].EnqCheck? && StepOf(s, k).threads[k].EnqReadTail? ==> s.threads[k].tail.ver < s.tail.ver
    ensures s.threads[k].EnqLink? && StepOf(s, k).threads[k].EnqReadTail? ==>
              s.threads[k].tail.ver + 1 < |Chain(s)|
    ensures s.threads[k].EnqHelp? || s.threads[k].DeqHelp? ==>
              s.threads[k].tail.ver + 1 < |Chain(s)| && s.threads[k].tail.ver < StepOf(s, k).tail.ver
    ensures s.threads[k].DeqCheck? && StepOf(s, k).threads[k].DeqReadHead? ==> s.threads[k].head.ver < s.head.ver
    ensures s.threads[k].DeqSwing? && StepOf(s, k).threads[k].DeqReadHead? ==> s.threads[k].head.ver < s.head.ver
  {
    hide PrivateOk;
    assert LocalsOk(Chain(s), s.head.ver, s.tail.ver, s.threads[k]);
    if s.threads[k].EnqLink? {
      ReadNextOk(s, s.threads[k].tail);
    }
  }

  // ---- Calls that end ----

  /** Thread k begins Enqueue(data) with the step from state a. */
  ghost predicate EnqueueFrom(trace: seq<State>, a: nat, k: nat, data: nat) {
    && a + 1 < |trace| && k < |trace[a].threads| && trace[a].threads[k] == Idle
    && BeginsEnqueue(trace[a], trace[a + 1], k, data)
  }

  ghost predicate DequeueFrom(trace: seq<State>, a: nat, k: nat) {
    && a + 1 < |trace| && k < |trace[a].threads| && k < |trace[a].calls| && trace[a].threads[k] == Idle
    && trace[a + 1] == With(trace[a], k, DeqReadHead).(calls := trace[a].calls[k := trace[a].calls[k] + 1])
  }

  /** From then on until state i it is in that call. */
  ghost predicate Busy(trace: seq<State>, a: nat, i: nat, k: nat) {
    a < i < |trace| && forall m :: a < m <= i ==> k < |trace[m].threads| && trace[m].threads[k] != Idle
  }

  /** The step from state j links thread k's node, which was not in the queue before. */
  ghost predicate LinksAt(trace: seq<State>, j: nat, k: nat, data: nat) {
    && j + 1 < |trace| && k < |trace[j].threads| && trace[j].threads[k].EnqLink? && trace[j].threads[k].data == data
    && data !in trace[j].enqueued && trace[j + 1].enqueued == trace[j].enqueued + [data]
  }

  /** One step of a run: thread k's own, or one that leaves it where it is. */
  lemma OwnStep(trace: seq<State>, i: nat, k: nat)
    requires Run(trace) && i + 1 < |trace| && k < |trace[i].threads| && trace[i].threads[k] != Idle
    ensures Inv(trace[i]) && Inv(trace[i + 1]) && |trace[i + 1].threads| == |trace[i].threads|
    ensures Chain(trace[i]) <= Chain(trace[i + 1])
    ensures trace[i + 1] == StepOf(trace[i], k) ||
            (trace[i + 1].threads[k] == trace[i].threads[k] && trace[i + 1].calls[k] == trace[i].calls[k])
  {
    hide Inv, StepBy;
    RunInv(trace, i);
    RunInv(trace, i + 1);
    CallsLength(trace[i]);
    var m :| 0 <= m < |trace[i].threads| && StepBy(trace[i], trace[i + 1], m);
    AnyStepKeeps(trace[i], trace[i + 1], m);
    CallsLength(trace[i + 1]);
    if m == k {
      BusySteps(trace[i], trace[i + 1], k);
    }
  }

  lemma BusySteps(s: State, s': State, k: nat)
    requires k < |s.threads| && s.threads[k] != Idle && StepBy(s, s', k)
    ensures s' == StepOf(s, k)
  {}

  /** Where a call to Enqueue is: its node is still its own, or it has linked it and has only Tail to move. */
  lemma {:induction false} EnqueueStages(trace: seq<State>, a: nat, i: nat, k: nat, data: nat)
    requires Run(trace) && EnqueueFrom(trace, a, k, data) && Busy(trace, a, i, k)
    ensures Private(trace[i].threads[k]) == data ||
            (trace[i].threads[k].EnqSwing? && trace[i].threads[k].data == data &&
             exists j :: a < j < i && LinksAt(trace, j, k, data))
  {
    hide Run, Inv;
    if i == a + 1 {
      BeginPrivate(data);
    } else {
      EnqueueStages(trace, a, i - 1, k, data);
      OwnStep(trace, i - 1, k);
      if trace[i] == StepOf(trace[i - 1], k) {
        if trace[i - 1].threads[k].EnqSwing? {
          SwingEnds(trace[i - 1], k);
        } else {
          NodeStages(trace[i - 1], k);
          if trace[i].threads[k].EnqSwing? {
            assert LinksAt(trace, i - 1, k, data);
          }
        }
      } else if trace[i - 1].threads[k].EnqSwing? {
        var j :| a < j < i - 1 && LinksAt(trace, j, k, data);
      }
    }
  }

  lemma SwingEnds(s: State, k: nat)
    requires k < |s.threads| && s.threads[k].EnqSwing?
    ensures StepOf(s, k).threads[k] == Idle
  {}

  // A thread keeps its node until it has linked it.
  lemma NodeStages(s: State, k: nat)
    requires Inv(s) && k < |s.threads| && Private(s.threads[k]) != NULL
    ensures var t, s' := s.threads[k], StepOf(s, k);
            if s'.threads[k].EnqSwing? then
              && t.EnqLink? && t.data == Private(t) == s'.threads[k].data && t.data !in s.enqueued
              && s'.enqueued == s.enqueued + [t.data] && s'.dequeued == s.dequeued
            else Private(s'.threads[k]) == Private(t) && s'.enqueued == s.enqueued && s'.dequeued == s.dequeued
  {
    hide Linked, LocalsOk;
    assert Private(s.threads[k]) !in Chain(s);
  }

  /** data is node number p of the chain. */
  ghost predicate AtPlace(s: State, p: nat, data: nat) {
    p < |Chain(s)| && Chain(s)[p] == data
  }

  /** It is linked at one place, and Tail has reached it. */
  ghost predicate LinkedOnce(s: State, data: nat) {
    && (exists p: nat :: AtPlace(s, p, data) && p <= s.tail.ver)
    && forall p: nat, q: nat :: AtPlace(s, p, data) && AtPlace(s, q, data) ==> p == q
  }

  lemma OnePlace(s: State, p: nat, data: nat)
    requires Inv(s) && AtPlace(s, p, data) && p <= s.tail.ver
    ensures LinkedOnce(s, data)
  {
    hide LocalsOk, PrivateOk;
  }

  lemma DataNotNull(s: State, s': State, k: nat, data: nat)
    requires k < |s.threads| && BeginsEnqueue(s, s', k, data)
    ensures data != NULL && Private(Idle) == NULL
  {}

  // Moving Tail on fails only because another thread has done so.
  lemma TailReaches(s: State, k: nat)
    requires Inv(s) && k < |s.threads| && s.threads[k].EnqSwing?
    ensures var s', p := StepOf(s, k), s.threads[k].tail.ver + 1;
            AtPlace(s', p, s.threads[k].data) && p <= s'.tail.ver && s'.enqueued == s.enqueued
  {
    hide Linked, PrivateOk;
    assert LocalsOk(Chain(s), s.head.ver, s.tail.ver, s.threads[k]);
  }

  /** An Enqueue that has returned has linked its node, by its own step, and only once; and Tail has reached it. */
  lemma EnqueueLinksOnce(trace: seq<State>, a: nat, i: nat, k: nat, data: nat)
    requires Run(trace) && EnqueueFrom(trace, a, k, data) && Busy(trace, a, i, k)
    requires i + 1 < |trace| && k < |trace[i + 1].threads| && trace[i + 1].threads[k] == Idle
    ensures exists j :: a < j < i && LinksAt(trace, j, k, data)
    ensures LinkedOnce(trace[i + 1], data)
  {
    hide Run, Inv;
    EnqueueStages(trace, a, i, k, data);
    OwnStep(trace, i, k);
    assert trace[i + 1] == StepOf(trace[i], k);
    DataNotNull(trace[a], trace[a + 1], k, data);
    if Private(trace[i].threads[k]) == data {
      NodeStages(trace[i], k);
    }
    TailReaches(trace[i], k);
    OnePlace(trace[i + 1], trace[i].threads[k].tail.ver + 1, data);
  }

  lemma {:induction false} DequeueStages(trace: seq<State>, a: nat, i: nat, k: nat)
    requires Run(trace) && DequeueFrom(trace, a, k) && Busy(trace, a, i, k)
    ensures InDequeue(trace[i].threads[k])
  {
    hide Run, Inv;
    if i > a + 1 {
      DequeueStages(trace, a, i - 1, k);
      OwnStep(trace, i - 1, k);
      LoopLeavesHistories(trace[i - 1], k);
    }
  }

  /** A Dequeue that goes on has neither enqueued nor dequeued anything. */
  lemma LoopLeavesHistories(s: State, k: nat)
    requires k < |s.threads| && InDequeue(s.threads[k])
    ensures var s' := StepOf(s, k);
            s'.threads[k] != Idle ==>
              InDequeue(s'.threads[k]) && s'.enqueued == s.enqueued && s'.dequeued == s.dequeued
  {}

  /** A Dequeue returns only after it has read a null next, while the queue was empty, or with the oldest node as the
      one node it takes. */
  lemma DequeueTakesOneOrNone(trace: seq<State>, a: nat, i: nat, k: nat)
    requires Run(trace) && DequeueFrom(trace, a, k) && Busy(trace, a, i, k)
    requires i + 1 < |trace| && k < |trace[i + 1].threads| && trace[i + 1].threads[k] == Idle
    ensures var s, s', t := trace[i], trace[i + 1], trace[i].threads[k];
            || (t.DeqCheck? && t.next.node == NULL && s'.dequeued == s.dequeued
                && exists j :: EmptyDuring(trace, i, j, k))
            || (t.DeqSwing? && |s.dequeued| < |s.enqueued| && t.next.node == s.enqueued[|s.dequeued|]
                && s'.dequeued == s.dequeued + [t.next.node])
  {
    hide Run, Inv, EmptyDuring;
    DequeueStages(trace, a, i, k);
    OwnStep(trace, i, k);
    if trace[i].threads[k].DeqCheck? {
      EmptyReturn(trace, i, k);
      ReturnsNull(trace[i], k);
    } else {
      SwingReturns(trace[i], k);
      DequeuesOldest(trace[i], k);
    }
  }

  lemma ReturnsNull(s: State, k: nat)
    requires k < |s.threads| && s.threads[k].DeqCheck? && StepOf(s, k).threads[k] == Idle
    ensures s.threads[k].next.node == NULL && StepOf(s, k).dequeued == s.dequeued
  {}

  lemma SwingReturns(s: State, k: nat)
    requires k < |s.threads| && InDequeue(s.threads[k]) && StepOf(s, k).threads[k] == Idle
    requires !s.threads[k].DeqCheck?
    ensures s.threads[k].DeqSwing? && s.head == s.threads[k].head
  {}
}
