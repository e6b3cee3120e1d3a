/**
 MetricsView::updateLatency of include/metrics.h: any number of concurrent calls, each a sequence of
 atomic loads, compare-and-swaps (which may fail spuriously) and additions on four shared words.
 */
module LatencyMetrics {
  import opened MachineInts

  const UINT64_MAX: u64 := 0xFFFF_FFFF_FFFF_FFFF

  /** Where a call is. */
  datatype Pc =
    | LoadingMin
    | MinLoop(current: u64)   // about to compare with, and try to lower, the minimum it last saw
    | LoadingMax
    | MaxLoop(current: u64)
    | AddingTotal
    | AddingCount
    | Finished

  datatype Call = Call(nanos: u64, pc: Pc)

  datatype State = State(minLatency: u64, maxLatency: u64, totalLatency: u64, latencyCount: u64, calls: seq<Call>)

  datatype Action = Begin(nanos: u64) | Act(call: nat, swapFails: bool)

  function Start(): State {
    State(UINT64_MAX, 0, 0, 0, [])
  }

  predicate Enabled(s: State, a: Action) {
    a.Act? ==> a.call < |s.calls| && s.calls[a.call].pc != Finished
  }

  /** What one call does next. A failed swap leaves the value it found in the local variable. */
  function Move(s: State, i: nat, swapFails: bool): State
    requires i < |s.calls|
  {
    var Call(nanos, pc) := s.calls[i];
    match pc
    case LoadingMin => Goto(s, i, MinLoop(s.minLatency))
    case MinLoop(current) =>
      if nanos >= current then Goto(s, i, LoadingMax)
      else if swapFails || s.minLatency != current then Goto(s, i, MinLoop(s.minLatency))
      else Goto(s, i, LoadingMax).(minLatency := nanos)
    case LoadingMax => Goto(s, i, MaxLoop(s.maxLatency))
    case MaxLoop(current) =>
      if nanos <= current then Goto(s, i, AddingTotal)
      else if swapFails || s.maxLatency != current then Goto(s, i, MaxLoop(s.maxLatency))
      else Goto(s, i, AddingTotal).(maxLatency := nanos)
    case AddingTotal => Goto(s, i, AddingCount).(totalLatency := Add64(s.totalLatency, nanos))
    case AddingCount => Goto(s, i, Finished).(latencyCount := Add64(s.latencyCount, 1))
    case Finished => s
  }

  function Goto(s: State, i: nat, pc: Pc): State
    requires i < |s.calls|
  {
    s.(calls := s.calls[i := s.calls[i].(pc := pc)])
  }

  function Step(s: State, a: Action): State
    requires Enabled(s, a)
  {
    match a
    case Begin(nanos) => s.(calls := s.calls + [Call(nanos, LoadingMin)])
    case Act(i, swapFails) => Move(s, i, swapFails)
  }

  predicate PastMin(pc: Pc) {
    !pc.LoadingMin? && !pc.MinLoop?
  }

  predicate PastMax(pc: Pc) {
    pc.AddingTotal? || pc.AddingCount? || pc.Finished?
  }

  /** The sum of the first n calls that have added their sample. */
  function SumAdded(calls: seq<Call>, n: nat): nat
    requires n <= |calls|
  {
    if n == 0 then 0
    else SumAdded(calls, n - 1)
         + if calls[n - 1].pc.AddingCount? || calls[n - 1].pc.Finished? then calls[n - 1].nanos else 0
  }

  function CountFinished(calls: seq<Call>, n: nat): nat
    requires n <= |calls|
  {
    if n == 0 then 0 else CountFinished(calls, n - 1) + if calls[n - 1].pc.Finished? then 1 else 0
  }

  ghost predicate MinInv(s: State) {
    && (forall i :: 0 <= i < |s.calls| ==>
          && (PastMin(s.calls[i].pc) ==> s.minLatency <= s.calls[i].nanos)
          && (s.calls[i].pc.MinLoop? ==> s.minLatency <= s.calls[i].pc.current))
    && (s.minLatency == UINT64_MAX || exists i :: 0 <= i < |s.calls| && s.calls[i].nanos == s.minLatency)
  }

  ghost predicate MaxInv(s: State) {
    && (forall i :: 0 <= i < |s.calls| ==>
          && (PastMax(s.calls[i].pc) ==> s.calls[i].nanos <= s.maxLatency)
          && (s.calls[i].pc.MaxLoop? ==> s.calls[i].pc.current <= s.maxLatency))
    && (s.maxLatency == 0 || exists i :: 0 <= i < |s.calls| && s.calls[i].nanos == s.maxLatency)
  }

  ghost predicate BoundInv(s: State) {
    MinInv(s) && MaxInv(s)
  }

  /** total is sum modulo 2^64. */
  ghost predicate Congruent(total: u64, sum: nat) {
    exists k: nat :: sum == total + k * 0x1_0000_0000_0000_0000
  }

  ghost predicate SumInv(s: State) {
    && Congruent(s.totalLatency, SumAdded(s.calls, |s.calls|))
    && Congruent(s.latencyCount, CountFinished(s.calls, |s.calls|))
  }

  lemma AddCongruent(total: u64, sum: nat, x: u64)
    requires Congruent(total, sum)
    ensures Congruent(Add64(total, x), sum + x)
  {
    var k: nat :| sum == total + k * 0x1_0000_0000_0000_0000;
    var k' := if total + x < TWO64 then k else k + 1;
    assert sum + x == Add64(total, x) + k' * 0x1_0000_0000_0000_0000;
  }

  lemma {:induction false} SumsAfterMove(calls: seq<Call>, i: nat, pc: Pc, n: nat)
    requires i < |calls| && n <= |calls|
    ensures var calls' := calls[i := calls[i].(pc := pc)];
      && SumAdded(calls', n) - SumAdded(calls, n) ==
           (if i < n && (pc.AddingCount? || pc.Finished?) then calls[i].nanos else 0)
         - (if i < n && (calls[i].pc.AddingCount? || calls[i].pc.Finished?) then calls[i].nanos else 0)
      && CountFinished(calls', n) - CountFinished(calls, n) ==
           (if i < n && pc.Finished? then 1 else 0) - (if i < n && calls[i].pc.Finished? then 1 else 0)
  {
    if n > 0 {
      SumsAfterMove(calls, i, pc, n - 1);
    }
  }

  lemma {:induction false} SumsOfPrefix(calls: seq<Call>, c: Call, n: nat)
    requires n <= |calls|
    ensures SumAdded(calls + [c], n) == SumAdded(calls, n)
    ensures CountFinished(calls + [c], n) == CountFinished(calls, n)
  {
    if n > 0 {
      SumsOfPrefix(calls, c, n - 1);
    }
  }

  lemma StepKeepsMin(s: State, a: Action)
    requires MinInv(s) && Enabled(s, a)
    ensures MinInv(Step(s, a))
  {
    var s' := Step(s, a);
    assert forall i :: 0 <= i < |s.calls| ==> s'.calls[i].nanos == s.calls[i].nanos;
    if a.Act? {
      assert s'.calls[a.call].nanos == s.calls[a.call].nanos;
    }
  }

  lemma StepKeepsMax(s: State, a: Action)
    requires MaxInv(s) && Enabled(s, a)
    ensures MaxInv(Step(s, a))
  {
    var s' := Step(s, a);
    assert forall i :: 0 <= i < |s.calls| ==> s'.calls[i].nanos == s.calls[i].nanos;
    if a.Act? {
      assert s'.calls[a.call].nanos == s.calls[a.call].nanos;
    }
  }

  lemma MoveKeepsSums(s: State, i: nat, swapFails: bool)
    requires SumInv(s) && i < |s.calls|
    ensures SumInv(Move(s, i, swapFails))
  {
    var s' := Move(s, i, swapFails);
    var pc := s.calls[i].pc;
    SumsAfterMove(s.calls, i, s'.calls[i].pc, |s.calls|);
    if pc == AddingTotal {
      AddCongruent(s.totalLatency, SumAdded(s.calls, |s.calls|), s.calls[i].nanos);
    } else if pc == AddingCount {
      AddCongruent(s.latencyCount, CountFinished(s.calls, |s.calls|), 1);
    } else {
      assert s'.totalLatency == s.totalLatency && s'.latencyCount == s.latencyCount;
    }
  }

  lemma StepKeepsSums(s: State, a: Action)
    requires SumInv(s) && Enabled(s, a)
    ensures SumInv(Step(s, a))
  {
    match a
    case Begin(nanos) => SumsOfPrefix(s.calls, Call(nanos, LoadingMin), |s.calls|);
    case Act(i, swapFails) => MoveKeepsSums(s, i, swapFails);
  }

  // ----- A call that runs alone -----

  /** The state after n moves of call i alone, no swap failing without a cause. */
  function Alone(s: State, i: nat, n: nat): (s': State)
    requires i < |s.calls|
    ensures |s'.calls| == |s.calls|
  {
    if n == 0 then s else Move(Alone(s, i, n - 1), i, false)
  }

  /** Moves of call i change no other call, and its sample never changes. */
  lemma {:induction false} AloneChangesOne(s: State, i: nat, n: nat)
    requires i < |s.calls|
    ensures Alone(s, i, n).calls == s.calls[i := Call(s.calls[i].nanos, Alone(s, i, n).calls[i].pc)]
  {
    if n > 0 {
      AloneChangesOne(s, i, n - 1);
    }
  }

  lemma {:induction false} AloneShift(s: State, i: nat, n: nat)
    requires i < |s.calls|
    ensures Alone(s, i, n + 1) == Alone(Move(s, i, false), i, n)
  {
    if n > 0 {
      AloneShift(s, i, n - 1);
    }
  }

  /** How many moves at most a call still needs when it runs alone. */
  function MovesLeft(s: State, i: nat): nat
    requires i < |s.calls|
  {
    match s.calls[i].pc
    case LoadingMin => 6
    case MinLoop(current) => if s.calls[i].nanos < current && s.minLatency != current then 6 else 5
    case LoadingMax => 4
    case MaxLoop(current) => if current < s.calls[i].nanos && s.maxLatency != current then 4 else 3
    case AddingTotal => 2
    case AddingCount => 1
    case Finished => 0
  }

  /** What a call leaves behind once it has finished, if nothing else happens meanwhile. */
  datatype Outcome = Outcome(minLatency: u64, maxLatency: u64, totalLatency: u64, latencyCount: u64)

  function Due(s: State, i: nat): Outcome
    requires i < |s.calls|
  {
    var Call(x, pc) := s.calls[i];
    Outcome(if !PastMin(pc) && x < s.minLatency then x else s.minLatency,
            if !PastMax(pc) && s.maxLatency < x then x else s.maxLatency,
            if pc.AddingCount? || pc.Finished? then s.totalLatency else Add64(s.totalLatency, x),
            if pc.Finished? then s.latencyCount else Add64(s.latencyCount, 1))
  }

  lemma MoveIsProgress(s: State, i: nat)
    requires BoundInv(s) && i < |s.calls| && s.calls[i].pc != Finished
    ensures MovesLeft(Move(s, i, false), i) < MovesLeft(s, i)
    ensures Due(Move(s, i, false), i) == Due(s, i)
  {
  }

  /**
   Wherever it is, a call that runs alone finishes within six moves, and leaves the lower minimum, the
   higher maximum, its sample added to the total and itself to the count.
   */
  lemma {:induction false} FinishesAlone(s: State, i: nat) returns (n: nat)
    requires BoundInv(s) && i < |s.calls|
    ensures n <= 6 && n <= MovesLeft(s, i) && Alone(s, i, n).calls[i].pc == Finished
    ensures var s' := Alone(s, i, n);
      && Outcome(s'.minLatency, s'.maxLatency, s'.totalLatency, s'.latencyCount) == Due(s, i)
      && s'.calls == s.calls[i := s.calls[i].(pc := Finished)]
    decreases MovesLeft(s, i)
  {
    if s.calls[i].pc == Finished {
      n := 0;
    } else {
      var s' := Move(s, i, false);
      assert s' == Step(s, Act(i, false));
      StepKeepsMin(s, Act(i, false));
      StepKeepsMax(s, Act(i, false));
      MoveIsProgress(s, i);
      n := FinishesAlone(s', i);
      AloneShift(s, i, n);
      n := n + 1;
    }
    AloneChangesOne(s, i, n);
  }

  // ----- Runs -----

  function Exec(actions: seq<Action>): (s: State) {
    if actions == [] then Start()
    else
      var before := Exec(actions[..|actions| - 1]);
      var a := actions[|actions| - 1];
      if Enabled(before, a) then Step(before, a) else before
  }

  lemma {:induction false} ExecKeepsInv(actions: seq<Action>)
    ensures BoundInv(Exec(actions)) && SumInv(Exec(actions))
  {
    if actions == [] {
      StartInv(Exec(actions));
    } else {
      var before, a := actions[..|actions| - 1], actions[|actions| - 1];
      ExecKeepsInv(before);
      if Enabled(Exec(before), a) {
        StepKeepsMin(Exec(before), a);
        StepKeepsMax(Exec(before), a);
        StepKeepsSums(Exec(before), a);
      }
    }
  }

  lemma StartInv(s: State)
    requires s == Start()
    ensures BoundInv(s) && SumInv(s)
  {
    assert SumAdded(s.calls, |s.calls|) == 0 + 0 * 0x1_0000_0000_0000_0000;
    assert CountFinished(s.calls, |s.calls|) == 0 + 0 * 0x1_0000_0000_0000_0000;
  }

  /** The samples that calls have been started with, in order. */
  function Samples(actions: seq<Action>): seq<u64> {
    if actions == [] then []
    else
      var a := actions[|actions| - 1];
      Samples(actions[..|actions| - 1]) + if a.Begin? then [a.nanos] else []
  }

  /** Each call keeps the sample it was started with. */
  lemma {:induction false} CallsKeepSamples(actions: seq<Action>)
    ensures var calls := Exec(actions).calls;
      |calls| == |Samples(actions)| && forall i :: 0 <= i < |calls| ==> calls[i].nanos == Samples(actions)[i]
  {
    if actions != [] {
      CallsKeepSamples(actions[..|actions| - 1]);
    }
  }

  /** At any moment the extremes bound every sample whose call has finished. */
  lemma ExtremesBoundFinished(actions: seq<Action>, i: nat)
    requires i < |Exec(actions).calls| && Exec(actions).calls[i].pc == Finished
    ensures Exec(actions).minLatency <= Exec(actions).calls[i].nanos <= Exec(actions).maxLatency
  {
    ExecKeepsInv(actions);
  }

  function Sum(calls: seq<Call>, n: nat): nat
    requires n <= |calls|
  {
    if n == 0 then 0 else Sum(calls, n - 1) + calls[n - 1].nanos
  }

  lemma {:induction false} SumsWhenFinished(calls: seq<Call>, n: nat)
    requires n <= |calls| && forall i :: 0 <= i < |calls| ==> calls[i].pc == Finished
    ensures SumAdded(calls, n) == Sum(calls, n) && CountFinished(calls, n) == n
  {
    if n > 0 {
      SumsWhenFinished(calls, n - 1);
    }
  }

  /**
   Once every call has finished, in whatever order and with whatever failed swaps: the extremes are
   the true extremes of the samples, and total and count are exact modulo 2^64.
   */
  lemma QuiescentMetrics(actions: seq<Action>)
    requires var calls := Exec(actions).calls;
      calls != [] && forall i :: 0 <= i < |calls| ==> calls[i].pc == Finished
    ensures var s := Exec(actions);
      && (forall i :: 0 <= i < |s.calls| ==> s.minLatency <= s.calls[i].nanos <= s.maxLatency)
      && (exists i :: 0 <= i < |s.calls| && s.calls[i].nanos == s.minLatency)
      && (exists i :: 0 <= i < |s.calls| && s.calls[i].nanos == s.maxLatency)
      && Congruent(s.totalLatency, Sum(s.calls, |s.calls|))
      && Congruent(s.latencyCount, |s.calls|)
  {
    ExecKeepsInv(actions);
    var s := Exec(actions);
    SumsWhenFinished(s.calls, |s.calls|);
    assert s.calls[0].nanos <= UINT64_MAX && PastMin(s.calls[0].pc) && PastMax(s.calls[0].pc);
  }
}
