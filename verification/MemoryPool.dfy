/**
 include/memory_pool.h: the lock-free free list, as a transition system whose steps are the single
 loads, stores and compare-and-swaps of allocate and deallocate, interleaved in any order
 (sequential consistency). Nodes are indices into the pool. Where a contract says `P(...) == true`,
 that keeps the predicate one fact for the verifier.
 */
module MemoryPools {
  import opened Messages

  /** Where a thread is. A compare-and-swap that fails, spuriously or not, starts the loop again. */
  datatype Pc =
    | Idle
    | LoadingHead                              // allocate: about to load freeList
    | HeadLoaded(node: nat)                    // allocate: about to load node->next
    | NextLoaded(node: nat, next: Option<nat>) // allocate: about to swap freeList from node to next
    | Popped(node: nat)                        // allocate: about to count and return the node
    | Freeing(node: nat)                       // deallocate: about to load freeList
    | OldHeadLoaded(node: nat, expected: Option<nat>) // deallocate: about to store node->next
    | NextStored(node: nat, expected: Option<nat>)  // deallocate: about to swap freeList from expected to node
    | Pushed                                   // deallocate: about to count

  datatype Action =
    | CallAllocate | LoadHead | LoadNext | SwapOut | SwapOutFails | CountAndReturn
    | CallDeallocate(node: nat) | LoadOldHead | StoreNext | SwapIn | SwapInFails | CountDown

  /** live is what the callers own: handed out and not yet given back. */
  datatype State = State(
    head: Option<nat>, next: seq<Option<nat>>, allocatedCount: int, live: set<nat>, threads: seq<Pc>)

  /** The node a thread has in hand: neither free nor owned by a caller. */
  function Holds(pc: Pc): Option<nat> {
    match pc
    case Popped(x) => Some(x)
    case Freeing(x) => Some(x)
    case OldHeadLoaded(x, _) => Some(x)
    case NextStored(x, _) => Some(x)
    case _ => None
  }

  /** The head a thread inside allocate has loaded and not yet swapped. */
  function Watches(pc: Pc): Option<nat> {
    match pc
    case HeadLoaded(x) => Some(x)
    case NextLoaded(x, _) => Some(x)
    case _ => None
  }

  /** Callers give back only nodes they own; that is the only demand on them. */
  predicate Enabled(s: State, t: nat, a: Action) {
    t < |s.threads| &&
    match a
    case CallAllocate => s.threads[t] == Idle
    case LoadHead => s.threads[t] == LoadingHead
    case LoadNext => s.threads[t].HeadLoaded? && s.threads[t].node < |s.next|
    case SwapOut => s.threads[t].NextLoaded? && s.head == Some(s.threads[t].node)
    case SwapOutFails => s.threads[t].NextLoaded?
    case CountAndReturn => s.threads[t].Popped?
    case CallDeallocate(x) => s.threads[t] == Idle && x in s.live
    case LoadOldHead => s.threads[t].Freeing?
    case StoreNext => s.threads[t].OldHeadLoaded? && s.threads[t].node < |s.next|
    case SwapIn => s.threads[t].NextStored? && s.head == s.threads[t].expected
    case SwapInFails => s.threads[t].NextStored?
    case CountDown => s.threads[t] == Pushed
  }

  function Apply(s: State, t: nat, a: Action): State
    requires Enabled(s, t, a)
  {
    var pc := s.threads[t];
    match a
    case CallAllocate => s.(threads := s.threads[t := LoadingHead])
    case LoadHead =>
      s.(threads := s.threads[t := if s.head.Some? then HeadLoaded(s.head.value) else Idle])
    case LoadNext => s.(threads := s.threads[t := NextLoaded(pc.node, s.next[pc.node])])
    case SwapOut => s.(head := pc.next, threads := s.threads[t := Popped(pc.node)])
    case SwapOutFails => s.(threads := s.threads[t := LoadingHead])
    case CountAndReturn =>
      s.(allocatedCount := s.allocatedCount + 1, live := s.live + {pc.node}, threads := s.threads[t := Idle])
    case CallDeallocate(x) => s.(live := s.live - {x}, threads := s.threads[t := Freeing(x)])
    case LoadOldHead => s.(threads := s.threads[t := OldHeadLoaded(pc.node, s.head)])
    case StoreNext =>
      s.(next := s.next[pc.node := pc.expected], threads := s.threads[t := NextStored(pc.node, pc.expected)])
    case SwapIn => s.(head := Some(pc.node), threads := s.threads[t := Pushed])
    case SwapInFails => s.(threads := s.threads[t := Freeing(pc.node)])
    case CountDown => s.(allocatedCount := s.allocatedCount - 1, threads := s.threads[t := Idle])
  }

  /** The hypothesis: a node is not pushed back while some thread still watches it as the head. */
  predicate NoRecycledHead(s: State, t: nat, a: Action)
    requires Enabled(s, t, a)
  {
    a == SwapIn ==> forall u :: 0 <= u < |s.threads| ==> Watches(s.threads[u]) != Some(s.threads[t].node)
  }

  // ----- The invariant -----

  ghost predicate Distinct(f: seq<nat>) {
    forall i, j :: 0 <= i < j < |f| ==> f[i] != f[j]
  }

  function Successor(f: seq<nat>, i: nat): Option<nat> {
    if i < |f| then Some(f[i]) else None
  }

  /** f is the free list: what following next from the head visits, without a cycle. */
  ghost predicate FreeList(head: Option<nat>, next: seq<Option<nat>>, f: seq<nat>) {
    Distinct(f) && head == Successor(f, 0) && Links(next, f)
  }

  /** Each node of f points to the one after it, the last one to nothing. */
  ghost predicate Links(next: seq<Option<nat>>, f: seq<nat>) {
    forall i :: 0 <= i < |f| ==> f[i] < |next| && next[f[i]] == Successor(f, i + 1)
  }

  ghost predicate HeldBy(s: State, x: nat, t: nat) {
    t < |s.threads| && Holds(s.threads[t]) == Some(x)
  }

  /** Every node is in exactly one place: free, owned by a caller, or in the hand of one thread. */
  ghost predicate Partition(s: State, f: seq<nat>) {
    && (forall x: nat :: x in s.live ==> x < |s.next| && x !in f)
    && (forall t: nat, x: nat :: HeldBy(s, x, t) ==> x < |s.next| && x !in f && x !in s.live)
    && (forall t: nat, u: nat, x: nat :: HeldBy(s, x, t) && HeldBy(s, x, u) ==> t == u)
    && (forall x: nat :: x < |s.next| ==> x in f || x in s.live || exists t :: HeldBy(s, x, t))
  }

  /** What threads remember makes sense: a stored successor is in place, a loaded head is a node. */
  ghost predicate Remembered(s: State) {
    forall t :: 0 <= t < |s.threads| ==>
      && (s.threads[t].NextStored? ==>
            s.threads[t].node < |s.next| && s.next[s.threads[t].node] == s.threads[t].expected)
      && (Watches(s.threads[t]).Some? ==> Watches(s.threads[t]).value < |s.next|)
  }

  /** A loaded successor is current as long as its node is free. */
  ghost predicate Current(s: State, f: seq<nat>) {
    forall t :: 0 <= t < |s.threads| && s.threads[t].NextLoaded? && s.threads[t].node in f ==>
      s.threads[t].node < |s.next| && s.next[s.threads[t].node] == s.threads[t].next
  }

  datatype Phase = COUNTING_UP | GIVING_BACK | COUNTING_DOWN | OTHER

  function PhaseOf(pc: Pc): Phase {
    match pc
    case Popped(_) => COUNTING_UP
    case Freeing(_) => GIVING_BACK
    case OldHeadLoaded(_, _) => GIVING_BACK
    case NextStored(_, _) => GIVING_BACK
    case Pushed => COUNTING_DOWN
    case _ => OTHER
  }

  function Phases(threads: seq<Pc>): seq<Phase> {
    seq(|threads|, i requires 0 <= i < |threads| => PhaseOf(threads[i]))
  }

  /** How many threads are in a phase. */
  function InPhase(threads: seq<Pc>, p: Phase): nat {
    multiset(Phases(threads))[p]
  }

  /** The counter is the pool less the free list, but for the threads between swap and counting. */
  ghost predicate Counted(s: State, f: seq<nat>) {
    && s.allocatedCount == |s.next| - |f| - InPhase(s.threads, COUNTING_UP) + InPhase(s.threads, COUNTING_DOWN)
    && s.allocatedCount == |s.live| + InPhase(s.threads, GIVING_BACK) + InPhase(s.threads, COUNTING_DOWN)
  }

  /** What holds as long as every pop installs the head's successor. */
  ghost predicate Core(s: State, f: seq<nat>) {
    FreeList(s.head, s.next, f) && Partition(s, f) && Remembered(s)
  }

  ghost predicate Inv(s: State, f: seq<nat>) {
    Core(s, f) && Current(s, f) && Counted(s, f)
  }

  // ----- Each step keeps the invariant -----

  lemma PhaseMoves(threads: seq<Pc>, t: nat, pc: Pc, p: Phase)
    requires t < |threads|
    ensures InPhase(threads[t := pc], p)
         == InPhase(threads, p) - (if PhaseOf(threads[t]) == p then 1 else 0) + (if PhaseOf(pc) == p then 1 else 0)
  {
    assert Phases(threads[t := pc]) == Phases(threads)[t := PhaseOf(pc)];
    assert Phases(threads)[t] == PhaseOf(threads[t]);
  }

  /** What one thread contributes to a phase. */
  function One(pc: Pc, p: Phase): nat {
    if PhaseOf(pc) == p then 1 else 0
  }

  lemma PhasesMove(threads: seq<Pc>, t: nat, pc: Pc)
    requires t < |threads|
    ensures var u, was := threads[t := pc], threads[t];
      && InPhase(u, COUNTING_UP) == InPhase(threads, COUNTING_UP) - One(was, COUNTING_UP) + One(pc, COUNTING_UP)
      && InPhase(u, GIVING_BACK) == InPhase(threads, GIVING_BACK) - One(was, GIVING_BACK) + One(pc, GIVING_BACK)
      && InPhase(u, COUNTING_DOWN) == InPhase(threads, COUNTING_DOWN) - One(was, COUNTING_DOWN) + One(pc, COUNTING_DOWN)
  {
    PhaseMoves(threads, t, pc, COUNTING_UP);
    PhaseMoves(threads, t, pc, GIVING_BACK);
    PhaseMoves(threads, t, pc, COUNTING_DOWN);
  }

  /** A step that moves no node and stores no pointer: only one thread's position changes. */
  lemma QuietStep(s: State, f: seq<nat>, t: nat, pc: Pc)
    requires Core(s, f) && t < |s.threads|
    requires Holds(pc) == Holds(s.threads[t]) && !pc.NextStored?
    requires Watches(pc).Some? ==> Watches(pc).value < |s.next|
    ensures Core(s.(threads := s.threads[t := pc]), f)
  {
    var s' := s.(threads := s.threads[t := pc]);
    assert forall x: nat, u: nat :: HeldBy(s', x, u) <==> HeldBy(s, x, u);
    assert Partition(s', f);
  }

  lemma PopOffList(head: Option<nat>, next: seq<Option<nat>>, f: seq<nat>)
    requires FreeList(head, next, f) && f != []
    ensures FreeList(next[f[0]], next, f[1..])
    ensures forall y: nat :: y in f[1..] <==> y in f && y != f[0]
  {
  }

  lemma PopKeepsPartition(s: State, f: seq<nat>, t: nat)
    requires FreeList(s.head, s.next, f) && Partition(s, f) && f != []
    requires Enabled(s, t, SwapOut) && f[0] == s.threads[t].node
    ensures Partition(Apply(s, t, SwapOut), f[1..])
  {
    var s', x := Apply(s, t, SwapOut), f[0];
    PopOffList(s.head, s.next, f);
    assert forall y: nat, u: nat :: HeldBy(s', y, u) <==> HeldBy(s, y, u) || (u == t && y == x);
    assert HeldBy(s', x, t);
  }

  /** The node that a pop is about to make the head is the successor of the node it takes. */
  predicate InstallsSuccessor(s: State, t: nat, a: Action)
    requires Enabled(s, t, a)
  {
    a == SwapOut ==> s.threads[t].node < |s.next| && s.next[s.threads[t].node] == s.threads[t].next
  }

  lemma SwapOutKeepsCore(s: State, f: seq<nat>, t: nat)
    requires Core(s, f) && Enabled(s, t, SwapOut) && InstallsSuccessor(s, t, SwapOut)
    ensures f != [] && f[0] == s.threads[t].node && Core(Apply(s, t, SwapOut), f[1..])
  {
    PopOffList(s.head, s.next, f);
    PopKeepsPartition(s, f, t);
  }

  lemma ReturnKeepsCore(s: State, f: seq<nat>, t: nat)
    requires Core(s, f) && Enabled(s, t, CountAndReturn)
    ensures s.threads[t].node !in s.live && Core(Apply(s, t, CountAndReturn), f)
  {
    var s', x := Apply(s, t, CountAndReturn), s.threads[t].node;
    assert HeldBy(s, x, t);
    assert forall y: nat, u: nat :: HeldBy(s', y, u) <==> HeldBy(s, y, u) && u != t;
  }

  lemma DeallocateKeepsCore(s: State, f: seq<nat>, t: nat, x: nat)
    requires Core(s, f) && Enabled(s, t, CallDeallocate(x))
    ensures Core(Apply(s, t, CallDeallocate(x)), f)
  {
    var s' := Apply(s, t, CallDeallocate(x));
    assert forall y: nat, u: nat :: HeldBy(s', y, u) <==> HeldBy(s, y, u) || (u == t && y == x);
    assert HeldBy(s', x, t);
  }

  lemma StoreNextKeepsCore(s: State, f: seq<nat>, t: nat)
    requires Core(s, f) && Enabled(s, t, StoreNext)
    ensures s.threads[t].node !in f && Core(Apply(s, t, StoreNext), f)
  {
    var s', x := Apply(s, t, StoreNext), s.threads[t].node;
    assert HeldBy(s, x, t);
    assert forall y: nat, u: nat :: HeldBy(s', y, u) <==> HeldBy(s, y, u);
    forall u | 0 <= u < |s.threads| && u != t && s.threads[u].NextStored?
      ensures s.threads[u].node != x
    {
      assert HeldBy(s, s.threads[u].node, u);
    }
  }

  lemma PushOnList(head: Option<nat>, next: seq<Option<nat>>, f: seq<nat>, x: nat)
    requires FreeList(head, next, f) && x < |next| && x !in f && next[x] == head
    ensures FreeList(Some(x), next, [x] + f)
  {
  }

  lemma SwapInKeepsCore(s: State, f: seq<nat>, t: nat)
    requires Core(s, f) && Enabled(s, t, SwapIn)
    ensures Core(Apply(s, t, SwapIn), [s.threads[t].node] + f)
  {
    var s', x := Apply(s, t, SwapIn), s.threads[t].node;
    assert HeldBy(s, x, t);
    PushOnList(s.head, s.next, f, x);
    assert forall y: nat :: y in [x] + f <==> y == x || y in f;
    assert forall y: nat, u: nat :: HeldBy(s', y, u) <==> HeldBy(s, y, u) && u != t;
    assert Partition(s', [x] + f);
  }

  lemma CountDownKeepsCore(s: State, f: seq<nat>, t: nat)
    requires Core(s, f) && Enabled(s, t, CountDown)
    ensures Core(Apply(s, t, CountDown), f)
  {
    var s' := Apply(s, t, CountDown);
    assert forall y: nat, u: nat :: HeldBy(s', y, u) <==> HeldBy(s, y, u);
  }

  /** The free list after a step. */
  function FreeAfter(s: State, f: seq<nat>, t: nat, a: Action): seq<nat>
    requires Enabled(s, t, a)
  {
    match a
    case SwapOut => if f == [] then [] else f[1..]
    case SwapIn => [s.threads[t].node] + f
    case _ => f
  }

  lemma StepKeepsCore(s: State, f: seq<nat>, t: nat, a: Action)
    requires Core(s, f) && Enabled(s, t, a) && InstallsSuccessor(s, t, a)
    ensures Core(Apply(s, t, a), FreeAfter(s, f, t, a))
  {
    var pc := s.threads[t];
    match a
    case CallAllocate => QuietStep(s, f, t, LoadingHead);
    case LoadHead =>
      assert s.head.Some? ==> s.head.value == f[0];
      QuietStep(s, f, t, if s.head.Some? then HeadLoaded(s.head.value) else Idle);
    case LoadNext => QuietStep(s, f, t, NextLoaded(pc.node, s.next[pc.node]));
    case SwapOut => SwapOutKeepsCore(s, f, t);
    case SwapOutFails => QuietStep(s, f, t, LoadingHead);
    case CountAndReturn => ReturnKeepsCore(s, f, t);
    case CallDeallocate(x) => DeallocateKeepsCore(s, f, t, x);
    case LoadOldHead => QuietStep(s, f, t, OldHeadLoaded(pc.node, s.head));
    case StoreNext => StoreNextKeepsCore(s, f, t);
    case SwapIn => SwapInKeepsCore(s, f, t);
    case SwapInFails => QuietStep(s, f, t, Freeing(pc.node));
    case CountDown => CountDownKeepsCore(s, f, t);
  }

  /** Under the hypothesis loaded successors stay current. */
  lemma StepKeepsCurrent(s: State, f: seq<nat>, t: nat, a: Action)
    requires Core(s, f) && Current(s, f) && Enabled(s, t, a) && NoRecycledHead(s, t, a)
    ensures Current(Apply(s, t, a), FreeAfter(s, f, t, a))
  {
    if a == StoreNext {
      StoreNextKeepsCore(s, f, t);
    }
  }

  /** Current successors are what pops install. */
  lemma CurrentIsInstalled(s: State, f: seq<nat>, t: nat, a: Action)
    requires Core(s, f) && Current(s, f) && Enabled(s, t, a)
    ensures InstallsSuccessor(s, t, a)
  {
  }

  /** A step that keeps the counter, the free list, the owned nodes and the thread's phase. */
  lemma QuietKeepsCounted(s: State, f: seq<nat>, t: nat, s': State)
    requires Counted(s, f) && t < |s.threads| && |s'.threads| == |s.threads| && |s'.next| == |s.next|
    requires s'.threads == s.threads[t := s'.threads[t]] && PhaseOf(s'.threads[t]) == PhaseOf(s.threads[t])
    requires s'.allocatedCount == s.allocatedCount && s'.live == s.live
    ensures Counted(s', f)
  {
    PhasesMove(s.threads, t, s'.threads[t]);
  }

  lemma SwapOutKeepsCounted(s: State, f: seq<nat>, t: nat)
    requires Counted(s, f) && Enabled(s, t, SwapOut) && f != []
    ensures Counted(Apply(s, t, SwapOut), f[1..])
  {
    PhasesMove(s.threads, t, Popped(s.threads[t].node));
  }

  lemma ReturnKeepsCounted(s: State, f: seq<nat>, t: nat)
    requires Counted(s, f) && Enabled(s, t, CountAndReturn) && s.threads[t].node !in s.live
    ensures Counted(Apply(s, t, CountAndReturn), f)
  {
    PhasesMove(s.threads, t, Idle);
  }

  lemma DeallocateKeepsCounted(s: State, f: seq<nat>, t: nat, x: nat)
    requires Counted(s, f) && Enabled(s, t, CallDeallocate(x))
    ensures Counted(Apply(s, t, CallDeallocate(x)), f)
  {
    PhasesMove(s.threads, t, Freeing(x));
  }

  lemma SwapInKeepsCounted(s: State, f: seq<nat>, t: nat)
    requires Counted(s, f) && Enabled(s, t, SwapIn)
    ensures Counted(Apply(s, t, SwapIn), [s.threads[t].node] + f)
  {
    PhasesMove(s.threads, t, Pushed);
  }

  lemma CountDownKeepsCounted(s: State, f: seq<nat>, t: nat)
    requires Counted(s, f) && Enabled(s, t, CountDown)
    ensures Counted(Apply(s, t, CountDown), f)
  {
    PhasesMove(s.threads, t, Idle);
  }

  lemma StepKeepsCounted(s: State, f: seq<nat>, t: nat, a: Action)
    requires Counted(s, f) == true && Enabled(s, t, a)
    requires a == SwapOut ==> f != []
    requires a == CountAndReturn ==> s.threads[t].node !in s.live
    ensures Counted(Apply(s, t, a), FreeAfter(s, f, t, a)) == true
  {
    match a
    case SwapOut => SwapOutKeepsCounted(s, f, t);
    case CountAndReturn => ReturnKeepsCounted(s, f, t);
    case CallDeallocate(x) => DeallocateKeepsCounted(s, f, t, x);
    case SwapIn => SwapInKeepsCounted(s, f, t);
    case CountDown => CountDownKeepsCounted(s, f, t);
    case _ => QuietKeepsCounted(s, f, t, Apply(s, t, a));
  }

  lemma StepCanCount(s: State, f: seq<nat>, t: nat, a: Action)
    requires Core(s, f) && Enabled(s, t, a)
    ensures a == SwapOut ==> f != []
    ensures a == CountAndReturn ==> s.threads[t].node !in s.live
  {
    assert a == CountAndReturn ==> HeldBy(s, s.threads[t].node, t);
  }

  /** Under the hypothesis, every step of every thread keeps the invariant. */
  lemma StepKeepsInv(s: State, f: seq<nat>, t: nat, a: Action)
    requires Inv(s, f) && Enabled(s, t, a) && NoRecycledHead(s, t, a)
    ensures Inv(Apply(s, t, a), FreeAfter(s, f, t, a))
  {
    CurrentIsInstalled(s, f, t, a);
    StepKeepsCore(s, f, t, a);
    StepKeepsCurrent(s, f, t, a);
    StepCanCount(s, f, t, a);
    StepKeepsCounted(s, f, t, a);
  }

  // ----- Construction -----

  /** n - 1, ..., 1, 0 */
  function Descending(n: nat): (f: seq<nat>)
    ensures |f| == n && forall i :: 0 <= i < n ==> f[i] == n - 1 - i
  {
    seq(n, i requires 0 <= i < n => n - 1 - i)
  }

  lemma DescendingLinks(next: seq<Option<nat>>)
    requires forall j :: 0 <= j < |next| ==> next[j] == if j == 0 then None else Some(j - 1)
    ensures FreeList(Successor(Descending(|next|), 0), next, Descending(|next|))
  {
    var f := Descending(|next|);
    forall i | 0 <= i < |f|
      ensures f[i] < |next| && next[f[i]] == Successor(f, i + 1)
    {
      assert f[i] == |next| - 1 - i;
    }
  }

  /** The loop of the constructor and of reset: pushes every node of the pool. */
  method BuildFreeList(next: array<Option<nat>>) returns (freeList: Option<nat>)
    modifies next
    ensures FreeList(freeList, next[..], Descending(next.Length))
  {
    freeList := None;
    for i := 0 to next.Length
      invariant freeList == Successor(Descending(i), 0)
      invariant forall j :: 0 <= j < i ==> next[j] == if j == 0 then None else Some(j - 1)
    {
      next[i] := freeList;
      freeList := Some(i);
    }
    DescendingLinks(next[..]);
  }

  /** A pool as constructed, with idle threads. */
  ghost predicate Fresh(s: State) {
    && FreeList(s.head, s.next, Descending(|s.next|))
    && s.allocatedCount == 0 && s.live == {}
    && forall t :: 0 <= t < |s.threads| ==> s.threads[t] == Idle
  }

  lemma FreshInv(s: State)
    requires Fresh(s)
    ensures Inv(s, Descending(|s.next|))
  {
    var f := Descending(|s.next|);
    forall x: nat | x < |s.next|
      ensures x in f
    {
      assert f[|s.next| - 1 - x] == x;
    }
    IdlePhases(s.threads);
  }

  lemma IdlePhases(threads: seq<Pc>)
    requires forall t :: 0 <= t < |threads| ==> threads[t] == Idle
    ensures InPhase(threads, COUNTING_UP) == InPhase(threads, GIVING_BACK) == InPhase(threads, COUNTING_DOWN) == 0
  {
    assert forall p: Phase :: p in multiset(Phases(threads)) ==> p in Phases(threads);
  }

  // ----- Runs -----

  /** One step: which thread acts, and how. */
  type Schedule = seq<(nat, Action)>

  /** The state a schedule leads to, when every step of it can be taken. */
  function Exec(s: State, schedule: Schedule): Option<State> {
    if schedule == [] then Some(s)
    else
      var before := Exec(s, schedule[..|schedule| - 1]);
      var (t, a) := schedule[|schedule| - 1];
      if before.Some? && Enabled(before.value, t, a) then Some(Apply(before.value, t, a)) else None
  }

  /** No step of the schedule pushes back a node that a thread still watches as the head. */
  ghost predicate RespectsWatchers(s: State, schedule: Schedule) {
    schedule == []
    || var front := schedule[..|schedule| - 1];
       var (t, a) := schedule[|schedule| - 1];
       && RespectsWatchers(s, front)
       && (Exec(s, front).Some? && Enabled(Exec(s, front).value, t, a) ==> NoRecycledHead(Exec(s, front).value, t, a))
  }

  /**
   In every interleaving that respects the hypothesis the free list stays acyclic, every node is in
   exactly one place, and the counter is the pool less the free list but for threads in transit.
   */
  lemma {:induction false} PoolIsSafe(s: State, schedule: Schedule) returns (f: seq<nat>)
    requires Fresh(s) && Exec(s, schedule).Some? && RespectsWatchers(s, schedule)
    ensures Inv(Exec(s, schedule).value, f)
    decreases |schedule|
  {
    if schedule == [] {
      FreshInv(s);
      f := Descending(|s.next|);
    } else {
      var front := schedule[..|schedule| - 1];
      var (t, a) := schedule[|schedule| - 1];
      f := PoolIsSafe(s, front);
      StepKeepsInv(Exec(s, front).value, f, t, a);
      f := FreeAfter(Exec(s, front).value, f, t, a);
    }
  }

  /** A node that allocate is about to return is owned by nobody: no node is handed out twice. */
  lemma NeverHandedOutTwice(s: State, schedule: Schedule, t: nat)
    requires Fresh(s) && Exec(s, schedule).Some? && RespectsWatchers(s, schedule)
    requires Enabled(Exec(s, schedule).value, t, CountAndReturn)
    ensures var now := Exec(s, schedule).value; var x := now.threads[t].node;
      && x !in now.live
      && forall u: nat :: u != t ==> !HeldBy(now, x, u)
  {
    var f := PoolIsSafe(s, schedule);
    assert HeldBy(Exec(s, schedule).value, Exec(s, schedule).value.threads[t].node, t);
  }

  /** With every thread idle the counter is the number of nodes owned by callers, and the rest are free. */
  lemma CountsAtRest(s: State, schedule: Schedule) returns (f: seq<nat>)
    requires Fresh(s) && Exec(s, schedule).Some? && RespectsWatchers(s, schedule)
    requires forall t :: 0 <= t < |Exec(s, schedule).value.threads| ==> Exec(s, schedule).value.threads[t] == Idle
    ensures var now := Exec(s, schedule).value;
      && FreeList(now.head, now.next, f)
      && (forall x: nat :: x < |now.next| <==> x in f || x in now.live)
      && now.allocatedCount == |now.live| == |now.next| - |f|
  {
    f := PoolIsSafe(s, schedule);
    var now := Exec(s, schedule).value;
    IdlePhases(now.threads);
    assert forall x: nat, t: nat :: !HeldBy(now, x, t);
    assert forall i :: 0 <= i < |f| ==> f[i] < |now.next|;
  }

  /** getAvailableCount, POOL_SIZE less the counter, is the length of the free list exactly when as many
      threads are still to count up as are still to count down. */
  lemma AvailableIsFreeIff(s: State, f: seq<nat>)
    requires Inv(s, f)
    ensures |s.next| - s.allocatedCount == |f|
            <==> InPhase(s.threads, COUNTING_UP) == InPhase(s.threads, COUNTING_DOWN)
    ensures 0 <= s.allocatedCount
  {
  }

  /** The counter exceeds the pool exactly while deallocations still to be counted outnumber the free
      nodes and the allocations still to be counted together. */
  lemma CounterExceedsPoolIff(s: State, f: seq<nat>)
    requires Inv(s, f)
    ensures s.allocatedCount > |s.next|
            <==> InPhase(s.threads, COUNTING_DOWN) > |f| + InPhase(s.threads, COUNTING_UP)
  {
  }

  // ----- What the operations achieve -----

  predicate InAllocate(pc: Pc) {
    pc.LoadingHead? || pc.HeadLoaded? || pc.NextLoaded?
  }

  /** Any idle thread may allocate, and may give back any node a caller owns, which it then has in hand. */
  lemma CallsStart(s: State, t: nat, x: nat)
    ensures Enabled(s, t, CallAllocate) <==> t < |s.threads| && s.threads[t] == Idle
    ensures Enabled(s, t, CallDeallocate(x)) <==> t < |s.threads| && s.threads[t] == Idle && x in s.live
    ensures Enabled(s, t, CallAllocate) ==>
      var s' := Apply(s, t, CallAllocate);
      InAllocate(s'.threads[t]) && s' == s.(threads := s'.threads)
    ensures Enabled(s, t, CallDeallocate(x)) ==>
      var s' := Apply(s, t, CallDeallocate(x));
      && PhaseOf(s'.threads[t]) == GIVING_BACK && Holds(s'.threads[t]) == Some(x)
      && s' == s.(threads := s'.threads, live := s.live - {x})
  {
  }

  /** allocate returns without a node only when it has found the list empty. */
  lemma NullOnlyWhenEmpty(s: State, t: nat, a: Action)
    requires Enabled(s, t, a) && InAllocate(s.threads[t]) && Apply(s, t, a).threads[t] == Idle
    ensures s.head == None && Apply(s, t, a) == s.(threads := s.threads[t := Idle])
  {
  }

  /** What allocate takes is the head of the list, and it returns what it took. */
  lemma TakesTheHead(s: State, t: nat, a: Action)
    requires Enabled(s, t, a)
    ensures InAllocate(s.threads[t]) && !InAllocate(Apply(s, t, a).threads[t]) && Apply(s, t, a).threads[t] != Idle ==>
      s.head.Some? && Apply(s, t, a).threads[t] == Popped(s.head.value)
    ensures s.threads[t].Popped? ==>
      Apply(s, t, a).threads[t] == Idle && Apply(s, t, a).live == s.live + {s.threads[t].node}
  {
  }

  /** deallocate lets go of its node only by making it the head of the list. */
  lemma GivesToTheHead(s: State, t: nat, a: Action)
    requires Enabled(s, t, a) && PhaseOf(s.threads[t]) == GIVING_BACK
    ensures Holds(Apply(s, t, a).threads[t]) == Holds(s.threads[t]) || Apply(s, t, a).head == Holds(s.threads[t])
  {
  }

  /** Extends a schedule by one step. */
  lemma Take(s: State, schedule: Schedule, now: State, t: nat, a: Action) returns (schedule': Schedule, next: State)
    requires Exec(s, schedule) == Some(now) && Enabled(now, t, a)
    ensures schedule' == schedule + [(t, a)] && next == Apply(now, t, a) && Exec(s, schedule') == Some(next)
    ensures RespectsWatchers(s, schedule) && NoRecycledHead(now, t, a) ==> RespectsWatchers(s, schedule')
  {
    schedule' := schedule + [(t, a)];
    next := Apply(now, t, a);
    assert schedule'[..|schedule'| - 1] == schedule;
  }

  /** Everything a schedule adds to another is done by one thread. */
  predicate OnlyBy(schedule: Schedule, schedule': Schedule, t: nat) {
    && |schedule| <= |schedule'| && schedule'[..|schedule|] == schedule
    && forall i :: |schedule| <= i < |schedule'| ==> schedule'[i].0 == t
  }

  /** The head and what threads remember are nodes of the pool. */
  ghost predicate InBounds(s: State) {
    && (s.head.Some? ==> s.head.value < |s.next|)
    && forall t :: 0 <= t < |s.threads| ==>
         && (Watches(s.threads[t]).Some? ==> Watches(s.threads[t]).value < |s.next|)
         && (Holds(s.threads[t]).Some? ==> Holds(s.threads[t]).value < |s.next|)
  }

  lemma CoreInBounds(s: State, f: seq<nat>)
    requires Core(s, f)
    ensures InBounds(s)
  {
    forall t: nat | t < |s.threads| && Holds(s.threads[t]).Some?
      ensures Holds(s.threads[t]).value < |s.next|
    {
      assert HeldBy(s, Holds(s.threads[t]).value, t);
    }
    assert s.head.Some? ==> s.head == Some(f[0]);
  }

  /** From the top of its loop, allocate run alone returns the head, or null when there is none. */
  lemma LoadsAlone(s: State, schedule: Schedule, now: State, t: nat) returns (schedule': Schedule, next: State)
    requires Exec(s, schedule) == Some(now) && (now.head.Some? ==> now.head.value < |now.next|)
    requires t < |now.threads| && now.threads[t] == LoadingHead
    ensures Exec(s, schedule') == Some(next) && OnlyBy(schedule, schedule', t) && |schedule'| <= |schedule| + 4
    ensures next.threads == now.threads[t := Idle]
    ensures next.live == if now.head.Some? then now.live + {now.head.value} else now.live
  {
    schedule', next := Take(s, schedule, now, t, LoadHead);
    if now.head.Some? {
      schedule', next := Take(s, schedule', next, t, LoadNext);
      schedule', next := Take(s, schedule', next, t, SwapOut);
      schedule', next := Take(s, schedule', next, t, CountAndReturn);
    }
  }

  lemma OnlyByBoth(first: Schedule, second: Schedule, third: Schedule, t: nat)
    requires OnlyBy(first, second, t) && OnlyBy(second, third, t)
    ensures OnlyBy(first, third, t)
  {
    assert third[..|first|] == third[..|second|][..|first|];
    forall i | |first| <= i < |third|
      ensures third[i].0 == t
    {
      assert i < |second| ==> third[i] == third[..|second|][i];
    }
  }

  lemma PopsAlone(s: State, schedule: Schedule, now: State, t: nat) returns (schedule': Schedule, next: State)
    requires Exec(s, schedule) == Some(now) && (now.head.Some? ==> now.head.value < |now.next|)
    requires t < |now.threads| && now.threads[t].NextLoaded?
    ensures Exec(s, schedule') == Some(next) && OnlyBy(schedule, schedule', t) && |schedule'| <= |schedule| + 5
    ensures next.threads == now.threads[t := Idle]
    ensures next.live == if now.head.Some? then now.live + {now.head.value} else now.live
  {
    if now.head == Some(now.threads[t].node) {
      schedule', next := Take(s, schedule, now, t, SwapOut);
      schedule', next := Take(s, schedule', next, t, CountAndReturn);
    } else {
      var middle;
      middle, next := Take(s, schedule, now, t, SwapOutFails);
      schedule', next := LoadsAlone(s, middle, next, t);
      OnlyByBoth(schedule, middle, schedule', t);
      assert next.threads == now.threads[t := Idle];
    }
  }

  /** Wherever it is, allocate run alone returns the head within six steps, or null when there is none. */
  lemma AllocatesAlone(s: State, schedule: Schedule, now: State, t: nat) returns (schedule': Schedule, next: State)
    requires Exec(s, schedule) == Some(now) && InBounds(now) && t < |now.threads| && InAllocate(now.threads[t])
    ensures Exec(s, schedule') == Some(next) && OnlyBy(schedule, schedule', t) && |schedule'| <= |schedule| + 6
    ensures next.threads == now.threads[t := Idle]
    ensures next.live == if now.head.Some? then now.live + {now.head.value} else now.live
  {
    if now.threads[t] == LoadingHead {
      schedule', next := LoadsAlone(s, schedule, now, t);
    } else if now.threads[t].NextLoaded? {
      schedule', next := PopsAlone(s, schedule, now, t);
    } else {
      var middle;
      middle, next := Take(s, schedule, now, t, LoadNext);
      schedule', next := PopsAlone(s, middle, next, t);
      OnlyByBoth(schedule, middle, schedule', t);
      assert next.threads == now.threads[t := Idle];
    }
  }

  /** From the top of its loop, deallocate run alone makes its node the head and counts down. */
  lemma FreesAlone(s: State, schedule: Schedule, now: State, t: nat, x: nat) returns (schedule': Schedule, next: State)
    requires Exec(s, schedule) == Some(now) && x < |now.next| && t < |now.threads| && now.threads[t] == Freeing(x)
    ensures Exec(s, schedule') == Some(next) && OnlyBy(schedule, schedule', t) && |schedule'| <= |schedule| + 4
    ensures next ==
      State(Some(x), now.next[x := now.head], now.allocatedCount - 1, now.live, now.threads[t := Idle])
  {
    schedule', next := Take(s, schedule, now, t, LoadOldHead);
    schedule', next := Take(s, schedule', next, t, StoreNext);
    schedule', next := Take(s, schedule', next, t, SwapIn);
    schedule', next := Take(s, schedule', next, t, CountDown);
    assert next.threads == now.threads[t := Idle];
  }

  lemma PushesAlone(s: State, schedule: Schedule, now: State, t: nat) returns (schedule': Schedule, next: State)
    requires Exec(s, schedule) == Some(now) && t < |now.threads|
    requires now.threads[t].NextStored? && now.threads[t].node < |now.next|
    ensures Exec(s, schedule') == Some(next) && OnlyBy(schedule, schedule', t) && |schedule'| <= |schedule| + 5
    ensures next.head == Some(now.threads[t].node) && next.live == now.live
    ensures next.threads == now.threads[t := Idle] && next.allocatedCount == now.allocatedCount - 1
  {
    if now.head == now.threads[t].expected {
      schedule', next := Take(s, schedule, now, t, SwapIn);
      schedule', next := Take(s, schedule', next, t, CountDown);
    } else {
      var middle;
      middle, next := Take(s, schedule, now, t, SwapInFails);
      schedule', next := FreesAlone(s, middle, next, t, now.threads[t].node);
      OnlyByBoth(schedule, middle, schedule', t);
    }
    assert next.threads == now.threads[t := Idle];
  }

  /** Wherever it is, deallocate run alone makes its node the head within six steps, and returns. */
  lemma DeallocatesAlone(s: State, schedule: Schedule, now: State, t: nat) returns (schedule': Schedule, next: State)
    requires Exec(s, schedule) == Some(now) && InBounds(now)
    requires t < |now.threads| && PhaseOf(now.threads[t]) == GIVING_BACK
    ensures Exec(s, schedule') == Some(next) && OnlyBy(schedule, schedule', t) && |schedule'| <= |schedule| + 6
    ensures next.head == Holds(now.threads[t]) && next.live == now.live
    ensures next.threads == now.threads[t := Idle] && next.allocatedCount == now.allocatedCount - 1
  {
    var x := Holds(now.threads[t]).value;
    if now.threads[t].Freeing? {
      schedule', next := FreesAlone(s, schedule, now, t, x);
    } else if now.threads[t].NextStored? {
      schedule', next := PushesAlone(s, schedule, now, t);
    } else {
      var middle;
      middle, next := Take(s, schedule, now, t, StoreNext);
      schedule', next := PushesAlone(s, middle, next, t);
      OnlyByBoth(schedule, middle, schedule', t);
      assert next.threads == now.threads[t := Idle];
    }
  }

  // ----- Without the hypothesis -----

  /** The part of the invariant that says the pool itself is sound. */
  ghost predicate Sound(s: State, f: seq<nat>) {
    FreeList(s.head, s.next, f) && Partition(s, f)
  }

  /** A list that starts at f[k] follows f from there. */
  lemma {:induction false} SuffixFollows(next: seq<Option<nat>>, f: seq<nat>, g: seq<nat>, k: nat, i: nat)
    requires Links(next, f) && Links(next, g)
    requires k < |f| && i < |g| && g[0] == f[k]
    ensures k + i < |f| && g[i] == f[k + i]
    decreases i
  {
    if i > 0 {
      SuffixFollows(next, f, g, k, i - 1);
      assert next[g[i - 1]] == Some(g[i]);
      assert next[f[k + (i - 1)]] == Successor(f, k + i);
    }
  }

  /**
   Swapping the head out keeps the pool sound if and only if the successor the thread remembers is
   still the head's successor: that is exactly what the hypothesis secures.
   */
  lemma SwapOutIsSafeIff(s: State, f: seq<nat>, t: nat)
    requires Sound(s, f) && Enabled(s, t, SwapOut)
    ensures (exists f' :: Sound(Apply(s, t, SwapOut), f')) <==> s.next[f[0]] == s.threads[t].next
  {
    var s', x := Apply(s, t, SwapOut), s.threads[t].node;
    assert s.head == Some(f[0]);
    if s.next[f[0]] == s.threads[t].next {
      PopOffList(s.head, s.next, f);
      PopKeepsPartition(s, f, t);
      assert Sound(s', f[1..]);
    }
    if f' :| Sound(s', f') {
      assert forall y: nat, u: nat :: HeldBy(s', y, u) <==> HeldBy(s, y, u) || (u == t && y == x);
      assert HeldBy(s', x, t);
      SwappedOutNext(s, f, s', f', x);
    }
  }

  lemma SwappedOutNext(s: State, f: seq<nat>, s': State, f': seq<nat>, x: nat)
    requires Sound(s, f) && Sound(s', f') && f != [] && f[0] == x
    requires s'.next == s.next && s'.live == s.live
    requires exists t: nat :: HeldBy(s', x, t)
    requires forall y: nat, u: nat :: y != x ==> (HeldBy(s', y, u) <==> HeldBy(s, y, u))
    ensures s'.head == s.next[x]
  {
    forall y: nat | y in f && y != x
      ensures y in f'
    {
      assert forall u: nat :: !HeldBy(s, y, u) && !HeldBy(s', y, u);
      var i :| 0 <= i < |f| && f[i] == y;
    }
    var second := if |f| > 1 then f[1] else x;
    assert second in f && (second != x ==> second in f');
    if f' != [] {
      var y := f'[0];
      assert y in f' && y < |s.next| && y !in s'.live;
      assert y != x;
      assert forall u: nat :: !HeldBy(s, y, u);
      assert y in f;
      var k :| 0 <= k < |f| && f[k] == y;
      if second != x {
        var i :| 0 <= i < |f'| && f'[i] == second;
        SuffixFollows(s.next, f, f', k, i);
        assert k + i == 1;
      }
    }
  }

  ghost predicate SomeListSound(s: State) {
    exists f: seq<nat> :: Sound(s, f)
  }

  /** The pool is sound in every state the schedule passes through. */
  ghost predicate SoundThroughout(s: State, schedule: Schedule) {
    forall i :: 0 <= i <= |schedule| && Exec(s, schedule[..i]).Some? ==> SomeListSound(Exec(s, schedule[..i]).value)
  }

  /** Every pop of the schedule installs the successor of the node it takes. */
  ghost predicate AlwaysInstallsSuccessor(s: State, schedule: Schedule) {
    schedule == []
    || var front := schedule[..|schedule| - 1];
       var (t, a) := schedule[|schedule| - 1];
       && AlwaysInstallsSuccessor(s, front)
       && (Exec(s, front).Some? && Enabled(Exec(s, front).value, t, a) ==>
             InstallsSuccessor(Exec(s, front).value, t, a))
  }

  lemma {:induction false} InstallingKeepsCore(s: State, schedule: Schedule) returns (f: seq<nat>)
    requires Fresh(s) && Exec(s, schedule).Some? && AlwaysInstallsSuccessor(s, schedule)
    ensures Core(Exec(s, schedule).value, f)
    decreases |schedule|
  {
    if schedule == [] {
      FreshInv(s);
      f := Descending(|s.next|);
    } else {
      var front := schedule[..|schedule| - 1];
      var (t, a) := schedule[|schedule| - 1];
      f := InstallingKeepsCore(s, front);
      StepKeepsCore(Exec(s, front).value, f, t, a);
      f := FreeAfter(Exec(s, front).value, f, t, a);
    }
  }

  /** A step between two sound states installs the successor. */
  lemma SoundStepInstalls(s: State, t: nat, a: Action)
    requires Enabled(s, t, a) && SomeListSound(s) && SomeListSound(Apply(s, t, a))
    ensures InstallsSuccessor(s, t, a)
  {
    if a == SwapOut {
      var f: seq<nat> :| Sound(s, f);
      SwapOutIsSafeIff(s, f, t);
    }
  }

  lemma SoundToTheEnd(s: State, schedule: Schedule)
    requires schedule != [] && Exec(s, schedule).Some?
    ensures var front := schedule[..|schedule| - 1];
      && SoundThroughout(s, schedule) == (SoundThroughout(s, front) && SomeListSound(Exec(s, schedule).value))
      && (SoundThroughout(s, front) ==> SomeListSound(Exec(s, front).value))
  {
    var front := schedule[..|schedule| - 1];
    assert schedule[..|schedule|] == schedule && front[..|front|] == front;
    assert forall i :: 0 <= i <= |front| ==> front[..i] == schedule[..i];
  }

  /**
   In every interleaving, without any hypothesis: list and partition are sound in all states passed
   through if and only if every successful pop installs the current successor of the node it takes.
   */
  lemma {:induction false} SoundIff(s: State, schedule: Schedule)
    requires Fresh(s) && Exec(s, schedule).Some?
    ensures SoundThroughout(s, schedule) == AlwaysInstallsSuccessor(s, schedule)
    decreases |schedule|
  {
    if AlwaysInstallsSuccessor(s, schedule) {
      var f := InstallingKeepsCore(s, schedule);
      assert Sound(Exec(s, schedule).value, f);
    }
    if schedule == [] {
      FreshInv(s);
      assert Sound(s, Descending(|s.next|));
      assert schedule[..0] == [];
    } else {
      var front := schedule[..|schedule| - 1];
      var (t, a) := schedule[|schedule| - 1];
      SoundIff(s, front);
      SoundToTheEnd(s, schedule);
      if SoundThroughout(s, schedule) {
        SoundStepInstalls(Exec(s, front).value, t, a);
      }
    }
  }

  /** The hypothesis is enough for that. */
  lemma {:induction false} RespectingInstalls(s: State, schedule: Schedule)
    requires Fresh(s) && Exec(s, schedule).Some? && RespectsWatchers(s, schedule)
    ensures AlwaysInstallsSuccessor(s, schedule)
    decreases |schedule|
  {
    if schedule != [] {
      var front := schedule[..|schedule| - 1];
      var (t, a) := schedule[|schedule| - 1];
      RespectingInstalls(s, front);
      var f := PoolIsSafe(s, front);
      CurrentIsInstalled(Exec(s, front).value, f, t, a);
    }
  }

  /** Thread t enters allocate and loads the head and its successor. */
  lemma WatchHead(s: State, schedule: Schedule, now: State, t: nat) returns (schedule': Schedule, next: State)
    requires Exec(s, schedule) == Some(now)
    requires t < |now.threads| && now.threads[t] == Idle && now.head.Some? && now.head.value < |now.next|
    ensures Exec(s, schedule') == Some(next)
    ensures RespectsWatchers(s, schedule) ==> RespectsWatchers(s, schedule')
    ensures next == now.(threads := now.threads[t := NextLoaded(now.head.value, now.next[now.head.value])])
  {
    schedule', next := Take(s, schedule, now, t, CallAllocate);
    schedule', next := Take(s, schedule', next, t, LoadHead);
    schedule', next := Take(s, schedule', next, t, LoadNext);
    assert next.threads == now.threads[t := NextLoaded(now.head.value, now.next[now.head.value])];
  }

  /** Thread t allocates a node without interruption. */
  lemma TakeNode(s: State, schedule: Schedule, now: State, t: nat) returns (schedule': Schedule, next: State)
    requires Exec(s, schedule) == Some(now)
    requires t < |now.threads| && now.threads[t] == Idle && now.head.Some? && now.head.value < |now.next|
    ensures Exec(s, schedule') == Some(next)
    ensures RespectsWatchers(s, schedule) ==> RespectsWatchers(s, schedule')
    ensures var x := now.head.value;
      next == State(now.next[x], now.next, now.allocatedCount + 1, now.live + {x}, now.threads)
  {
    schedule', next := WatchHead(s, schedule, now, t);
    schedule', next := Take(s, schedule', next, t, SwapOut);
    schedule', next := Take(s, schedule', next, t, CountAndReturn);
    assert next.threads == now.threads;
  }

  /** Thread t gives a node back without interruption, up to the counting. */
  lemma GiveNode(s: State, schedule: Schedule, now: State, t: nat, x: nat) returns (schedule': Schedule, next: State)
    requires Exec(s, schedule) == Some(now)
    requires t < |now.threads| && now.threads[t] == Idle && x in now.live && x < |now.next|
    ensures Exec(s, schedule') == Some(next)
    ensures RespectsWatchers(s, schedule) && (forall u :: 0 <= u < |now.threads| ==> Watches(now.threads[u]).None?) ==>
      RespectsWatchers(s, schedule')
    ensures next ==
      State(Some(x), now.next[x := now.head], now.allocatedCount, now.live - {x}, now.threads[t := Pushed])
  {
    schedule', next := Take(s, schedule, now, t, CallDeallocate(x));
    schedule', next := Take(s, schedule', next, t, LoadOldHead);
    schedule', next := Take(s, schedule', next, t, StoreNext);
    schedule', next := Take(s, schedule', next, t, SwapIn);
    assert next.threads == now.threads[t := Pushed];
  }

  /** Two nodes, two idle threads. */
  function TwoNodes(): State {
    State(Some(1), [None, Some(0)], 0, {}, [Idle, Idle])
  }

  /** Thread 0 watches the head; thread 1 takes both nodes and pushes the first one back. */
  lemma RecycleHead() returns (schedule: Schedule)
    ensures Exec(TwoNodes(), schedule) == Some(State(Some(1), [None, None], 2, {0}, [NextLoaded(1, Some(0)), Pushed]))
  {
    var s := TwoNodes();
    var now;
    schedule, now := WatchHead(s, [], s, 0);
    var threads := [NextLoaded(1, Some(0)), Idle];
    assert now == State(Some(1), [None, Some(0)], 0, {}, threads);
    schedule, now := TakeNode(s, schedule, now, 1);
    assert now == State(Some(0), [None, Some(0)], 1, {1}, threads);
    schedule, now := TakeNode(s, schedule, now, 1);
    assert now == State(None, [None, Some(0)], 2, {0, 1}, threads);
    schedule, now := GiveNode(s, schedule, now, 1, 1);
    assert now.threads == [NextLoaded(1, Some(0)), Pushed];
    assert now.next == [None, None] && now.live == {0};
  }

  /**
   The hypothesis is needed. Thread 0 loads the head and its successor; thread 1 takes both nodes and
   gives the first one back; thread 0's swap then succeeds and makes a node that a caller owns the
   head of the list, and the next allocation hands that node out a second time.
   */
  lemma RecycledHeadHandsOutTwice() returns (schedule: Schedule)
    ensures Fresh(TwoNodes()) && Exec(TwoNodes(), schedule).Some?
    ensures var now := Exec(TwoNodes(), schedule).value;
      Enabled(now, 1, CountAndReturn) && now.threads[1].node in now.live
  {
    var s := TwoNodes();
    assert Descending(2) == [1, 0];
    schedule := RecycleHead();
    var now := Exec(s, schedule).value;
    schedule, now := Take(s, schedule, now, 0, SwapOut);
    schedule, now := Take(s, schedule, now, 1, CountDown);
    assert now == State(Some(0), [None, None], 1, {0}, [Popped(1), Idle]);
    schedule, now := WatchHead(s, schedule, now, 1);
    schedule, now := Take(s, schedule, now, 1, SwapOut);
  }

  /**
   The counter can exceed the pool: between the push and the counting of a deallocation the node can
   be allocated again. getAvailableCount then wraps around to almost 2^64.
   */
  lemma CounterCanExceedPool() returns (schedule: Schedule)
    ensures var s := State(Some(0), [None], 0, {}, [Idle, Idle]);
      && Fresh(s) && Exec(s, schedule).Some? && RespectsWatchers(s, schedule)
      && Exec(s, schedule).value.allocatedCount > |s.next|
  {
    var s := State(Some(0), [None], 0, {}, [Idle, Idle]);
    assert Descending(1) == [0];
    var now;
    schedule, now := TakeNode(s, [], s, 0);
    schedule, now := GiveNode(s, schedule, now, 0, 0);
    schedule, now := TakeNode(s, schedule, now, 1);
  }
}
