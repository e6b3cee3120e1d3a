/**
 When the calculator reports its first complete window. The flag is sound (never set before a full
 window duration separates two accepted trades) but far from complete: eviction runs before the
 check and moves the start of the window, so a trade only counts until some trade since it has been
 evicted for its age. Unless the ring overflows, that leaves two trades exactly one duration apart.

 Where a contract says `P(...) == true`, that keeps the predicate one fact for the verifier.
 */
module VwapReadiness {
  import opened MachineInts
  import opened Messages
  import opened BoundedSeq
  import opened VwapModel
  import opened VwapRuns

  // ----- Soundness -----

  ghost predicate StartInv(tr: Trace) {
    var c := tr.state;
    var all := Records(tr.removed) + c.window;
    && (all == [] ==> !c.firstComplete)
    && (all != [] && c.windowStart == 0 ==> c.lastTradeTime == 0)
    && (all != [] && c.windowStart != 0 ==> all[0].timestamp <= c.windowStart)
    && (c.firstComplete ==> all != [] && c.duration <= c.lastTradeTime - all[0].timestamp)
  }

  /** first stands for the timestamp of the first accepted trade. */
  ghost predicate StartSince(c: Calc, first: u64) {
    && (c.windowStart == 0 ==> c.lastTradeTime == 0)
    && (c.windowStart != 0 ==> first <= c.windowStart)
    && (c.firstComplete ==> c.duration <= c.lastTradeTime - first)
  }

  lemma AcceptKeepsStart(c: Calc, r: Record, first: u64)
    requires CalcInv(c) && c.lastTradeTime <= r.timestamp
    requires c.sumVolume + r.quantity < TWO64 && c.sumPriceVolume + r.priceVolume < TWO64
    requires StartSince(c, first) && first <= r.timestamp && AllSince(Accept(c, r).window, first)
    ensures StartSince(Accept(c, r), first)
  {
    AcceptKeepsInv(c, r);
  }

  lemma SuffixSince(gone: seq<Record>, window: seq<Record>)
    requires Sorted(gone + window) && window != []
    ensures AllSince(window, (gone + window)[0].timestamp)
    ensures (gone + window)[0].timestamp <= window[|window| - 1].timestamp
  {
    forall i | 0 <= i < |window|
      ensures (gone + window)[0].timestamp <= window[i].timestamp
    {
      assert window[i] == (gone + window)[|gone| + i];
    }
  }

  lemma StepKeepsStart(tr: Trace, t: TradeMessage)
    requires TraceInv(tr) && StartInv(tr)
    ensures StartInv(Step(tr, t))
  {
    if Accepts(tr.state, t) {
      ProductFits(t);
      StepAppends(tr, t);
      StepKeepsInv(tr, t);
      var tr' := Step(tr, t);
      var all' := Records(tr'.removed) + tr'.state.window;
      assert all' == Records(tr.removed) + tr.state.window + [RecordOf(t)];
      var first := all'[0].timestamp;
      SuffixSince(Records(tr'.removed), tr'.state.window);
      assert StartSince(tr.state, first);
      AcceptKeepsStart(tr.state, RecordOf(t), first);
    }
  }

  lemma {:induction false} RunKeepsStart(duration: u64, trades: seq<TradeMessage>)
    ensures StartInv(Run(duration, trades))
  {
    if trades != [] {
      RunKeepsStart(duration, trades[..|trades| - 1]);
      RunKeepsInv(duration, trades[..|trades| - 1]);
      StepKeepsStart(Run(duration, trades[..|trades| - 1]), trades[|trades| - 1]);
    }
  }

  /** Readiness needs an accepted trade at least one window duration after the first accepted one. */
  lemma ReadyIsSound(duration: u64, trades: seq<TradeMessage>)
    requires Run(duration, trades).state.firstComplete
    ensures var accepted := Accepted(duration, trades);
      && accepted != []
      && accepted[|accepted| - 1].timestamp - accepted[0].timestamp >= duration
      && HasCompleteWindow(Run(duration, trades).state)
  {
    RunKeepsInv(duration, trades);
    RunKeepsStart(duration, trades);
  }

  /** Readiness never reverts. */
  lemma {:induction false} ReadyPersists(duration: u64, trades: seq<TradeMessage>, more: seq<TradeMessage>)
    requires Run(duration, trades).state.firstComplete
    ensures Run(duration, trades + more).state.firstComplete
  {
    if more == [] {
      assert trades + more == trades;
    } else {
      ReadyPersists(duration, trades, more[..|more| - 1]);
      assert (trades + more)[..|trades + more| - 1] == trades + more[..|more| - 1];
    }
  }

  // ----- Exactness -----

  /** Two records exactly one window duration apart, the older one not at time zero. */
  ghost predicate DurationApart(s: seq<Record>, duration: u64) {
    exists i, j :: 0 <= i < j < |s| && 0 < s[i].timestamp && s[j].timestamp == s[i].timestamp + duration
  }

  /** start is the first nonzero timestamp in s from index a on, or zero when there is none. */
  ghost predicate StartsFrom(s: seq<Record>, a: nat, start: u64) {
    if start == 0 then forall i :: a <= i < |s| ==> s[i].timestamp == 0
    else exists j :: a <= j < |s| && s[j].timestamp == start && forall i :: a <= i < j ==> s[i].timestamp == 0
  }

  /**
   When record j arrives, record k has not been evicted for its age: of the records up to j, the newest
   that found k in the ring is at most a duration younger than k.
   */
  predicate Kept(s: seq<Record>, k: nat, j: nat, duration: u64)
    requires k <= j < |s|
  {
    s[Min(j, k + MAX_TRADES - 1)].timestamp <= s[k].timestamp + duration
  }

  /** Record j is at least a duration younger than record i, and nothing since i has been evicted for its age. */
  ghost predicate Spans(s: seq<Record>, i: nat, j: nat, duration: u64) {
    && i < j < |s|
    && 0 < s[i].timestamp && s[i].timestamp + duration <= s[j].timestamp
    && forall k: nat :: i <= k < j ==> Kept(s, k, j, duration)
  }

  /** From record a on nothing has been evicted for its age when record j arrives, and a - 1 has been. */
  ghost predicate KeptFrom(s: seq<Record>, a: nat, j: nat, duration: u64)
    requires a <= j < |s|
  {
    && (0 < a ==> !Kept(s, a - 1, j, duration))
    && forall k: nat :: a <= k < j ==> Kept(s, k, j, duration)
  }

  ghost predicate SpannedAt(s: seq<Record>, j: nat, duration: u64) {
    exists i: nat :: Spans(s, i, j, duration)
  }

  ghost predicate WindowSpanned(s: seq<Record>, duration: u64) {
    exists i: nat, j: nat :: Spans(s, i, j, duration)
  }

  /** The accepted records tell whether record k, gone from the ring, has expired or was displaced. */
  ghost predicate Reason(removed: seq<Removal>, all: seq<Record>, k: nat, duration: u64)
    requires k < |removed| && k < |all|
  {
    && (removed[k].Expired? <==> !Kept(all, k, |all| - 1, duration))
    && (removed[k].Displaced? ==> k + MAX_TRADES < |all|)
  }

  ghost predicate Reasons(removed: seq<Removal>, all: seq<Record>, duration: u64) {
    forall k: nat :: k < |removed| && k < |all| ==> Reason(removed, all, k, duration)
  }

  lemma KeptAfterAppend(s: seq<Record>, r: Record, k: nat, j: nat, duration: u64)
    requires k <= j < |s|
    ensures Kept(s + [r], k, j, duration) <==> Kept(s, k, j, duration)
    ensures Sorted(s + [r]) && !Kept(s, k, j, duration) ==> !Kept(s + [r], k, |s|, duration)
    ensures k + MAX_TRADES <= j + 1 ==> (Kept(s + [r], k, |s|, duration) <==> Kept(s, k, j, duration))
  {
  }

  /** A push onto a full ring displaces its oldest record, which is not too old. */
  lemma DroppedIsKept(c: Calc, gone: seq<Record>, r: Record)
    requires CalcInv(c) && DroppedBy(c) != []
    ensures Kept(gone + c.window + [r], |gone|, |gone + c.window|, c.duration)
  {
    var all := gone + c.window + [r];
    assert all[|gone| + MAX_TRADES - 1] == c.window[|c.window| - 1];
    assert all[|gone|] == c.window[0];
  }

  /** What expires when r arrives is older than r by more than a duration. */
  lemma ExpiredIsNotKept(c: Calc, gone: seq<Record>, r: Record, i: nat)
    requires i < |ExpiredBy(c, r)| && |c.window| <= MAX_TRADES
    ensures var k := |gone| + |DroppedBy(c)| + i;
      k <= |gone + c.window| && !Kept(gone + c.window + [r], k, |gone + c.window|, c.duration)
  {
    var all := gone + c.window + [r];
    var pushed := PushBounded(c.window, r, MAX_TRADES);
    PushDrops(c, r);
    assert (DroppedBy(c) + pushed)[|DroppedBy(c)| + i] == pushed[i];
    assert (c.window + [r])[|DroppedBy(c)| + i] == pushed[i];
    assert all == gone + (c.window + [r]);
    assert all[|gone| + |DroppedBy(c)| + i] == pushed[i];
  }

  /** From record k on, the next dropped records are displaced and the gone records after them expire. */
  ghost predicate Told(s: seq<Record>, last: nat, k: nat, dropped: nat, gone: nat, duration: u64) {
    && k + dropped + gone <= last == |s| - 1
    && (forall i: nat :: k <= i < k + dropped ==> i + MAX_TRADES <= last && Kept(s, i, last, duration))
    && (forall i: nat :: k + dropped <= i < k + dropped + gone ==> !Kept(s, i, last, duration))
  }

  lemma ReasonsExtend(removed: seq<Removal>, dropped: seq<Record>, gone: seq<Record>,
                      all: seq<Record>, r: Record, duration: u64)
    requires Reasons(removed, all, duration) == true && Sorted(all + [r]) == true
    requires removed != [] ==> |removed| < |all|
    requires Told(all + [r], |all|, |removed|, |dropped|, |gone|, duration) == true
    ensures Reasons(removed + (DisplacedLog(dropped) + ExpiredLog(gone)), all + [r], duration) == true
  {
    var removed', all' := removed + (DisplacedLog(dropped) + ExpiredLog(gone)), all + [r];
    forall k: nat | k < |removed'| && k < |all'|
      ensures Reason(removed', all', k, duration)
    {
      if k < |removed| {
        assert Reason(removed, all, k, duration);
        assert removed'[k] == removed[k];
        KeptAfterAppend(all, r, k, |all| - 1, duration);
      } else {
        assert removed'[k].Displaced? <==> k < |removed| + |dropped|;
      }
    }
  }

  /** Eviction never empties the window. */
  lemma AcceptLeavesRoom(c: Calc, r: Record)
    requires CalcInv(c) && c.lastTradeTime <= r.timestamp
    ensures |DroppedBy(c)| + |ExpiredBy(c, r)| <= |c.window|
  {
    PushDrops(c, r);
    var pushed := PushBounded(c.window, r, MAX_TRADES);
    assert pushed[|pushed| - 1] == r;
  }

  lemma RemovalsAreTold(c: Calc, past: seq<Record>, r: Record)
    requires CalcInv(c) && c.lastTradeTime <= r.timestamp
    ensures var all := past + c.window;
      Told(all + [r], |all|, |past|, |DroppedBy(c)|, |ExpiredBy(c, r)|, c.duration) == true
  {
    var all := past + c.window;
    AcceptLeavesRoom(c, r);
    var d := |past| + |DroppedBy(c)|;
    forall k: nat | |past| <= k < d
      ensures k + MAX_TRADES < |all| + 1 && Kept(all + [r], k, |all|, c.duration)
    {
      DroppedIsKept(c, past, r);
    }
    forall k: nat | d <= k < d + |ExpiredBy(c, r)|
      ensures !Kept(all + [r], k, |all|, c.duration)
    {
      ExpiredIsNotKept(c, past, r, k - d);
    }
  }

  lemma StepKeepsReasons(tr: Trace, t: TradeMessage)
    requires TraceInv(tr) && Accepts(tr.state, t)
    requires Reasons(tr.removed, Records(tr.removed) + tr.state.window, tr.state.duration)
    ensures var tr' := Step(tr, t);
      Reasons(tr'.removed, Records(tr'.removed) + tr'.state.window, tr.state.duration) == true
  {
    var c, r, past := tr.state, RecordOf(t), Records(tr.removed);
    StepAppends(tr, t);
    StepKeepsOrder(tr, t);
    RemovalsAreTold(c, past, r);
    ReasonsExtend(tr.removed, DroppedBy(c), ExpiredBy(c, r), past + c.window, r, c.duration);
  }

  /** One past the newest record that expired. */
  function Anchor(removed: seq<Removal>): (a: nat)
    ensures a <= |removed|
    ensures 0 < a ==> removed[a - 1].Expired?
    ensures forall k :: a <= k < |removed| ==> removed[k].Displaced?
  {
    if removed == [] || removed[|removed| - 1].Expired? then |removed| else Anchor(removed[..|removed| - 1])
  }

  lemma AnchorStays(removed: seq<Removal>, dropped: seq<Record>)
    ensures Anchor(removed + (DisplacedLog(dropped) + ExpiredLog([]))) == Anchor(removed)
  {
    var removed' := removed + (DisplacedLog(dropped) + ExpiredLog([]));
    var a, a' := Anchor(removed), Anchor(removed');
    assert forall k :: 0 <= k < |removed| ==> removed'[k] == removed[k];
    assert forall k :: |removed| <= k < |removed'| ==> removed'[k].Displaced?;
  }

  lemma StartsFromAppend(s: seq<Record>, r: Record, a: nat, start: u64)
    requires StartsFrom(s, a, start) && a <= |s|
    ensures StartsFrom(s + [r], a, if start == 0 then r.timestamp else start)
  {
    var s' := s + [r];
    if start == 0 {
      assert s'[|s|] == r;
    } else {
      var j :| a <= j < |s| && s[j].timestamp == start && forall i :: a <= i < j ==> s[i].timestamp == 0;
      assert s'[j].timestamp == start && forall i :: a <= i < j ==> s'[i].timestamp == 0;
    }
  }

  /** The code's start of the window is that of everything since the newest expired record. */
  ghost predicate StartKnown(tr: Trace) {
    StartsFrom(Records(tr.removed) + tr.state.window, Anchor(tr.removed), tr.state.windowStart)
  }

  lemma StepKeepsStartKnown(tr: Trace, t: TradeMessage)
    requires TraceInv(tr) && Accepts(tr.state, t) && StartKnown(tr)
    ensures StartKnown(Step(tr, t))
  {
    var c, r, tr' := tr.state, RecordOf(t), Step(tr, t);
    StepAppends(tr, t);
    if ExpiredBy(c, r) == [] {
      AnchorStays(tr.removed, DroppedBy(c));
      StartsFromAppend(Records(tr.removed) + c.window, r, Anchor(tr.removed), c.windowStart);
    } else {
      LastIsExpired(tr.removed, DroppedBy(c), ExpiredBy(c, r));
      StartAfterEviction(c, r, Records(tr'.removed));
    }
  }

  lemma LastIsExpired(removed: seq<Removal>, dropped: seq<Record>, gone: seq<Record>)
    requires gone != []
    ensures var removed' := removed + (DisplacedLog(dropped) + ExpiredLog(gone)); Anchor(removed') == |removed'|
  {
    var removed' := removed + (DisplacedLog(dropped) + ExpiredLog(gone));
    assert removed'[|removed'| - 1] == Expired(gone[|gone| - 1]);
  }

  lemma StartAfterEviction(c: Calc, r: Record, past: seq<Record>)
    requires CalcInv(c) && c.lastTradeTime <= r.timestamp && ExpiredBy(c, r) != []
    ensures StartsFrom(past + Accept(c, r).window, |past|, Accept(c, r).windowStart)
  {
    var pushed := PushBounded(c.window, r, MAX_TRADES);
    assert pushed[|pushed| - 1] == r;
    assert Accept(c, r).window[0].timestamp == Accept(c, r).windowStart;
    assert (past + Accept(c, r).window)[|past|] == Accept(c, r).window[0];
  }

  /** In terms of the accepted records, the check asks whether the newest of them spans a window. */
  lemma CheckIsSpan(all: seq<Record>, a: nat, last: nat, start: u64, duration: u64)
    requires a <= last == |all| - 1 && 0 < duration
    requires Sorted(all) == true && StartsFrom(all, a, start) == true && KeptFrom(all, a, last, duration) == true
    ensures (duration <= all[last].timestamp - start) == SpannedAt(all, last, duration)
  {
    if start != 0 {
      var j :| a <= j < |all| && all[j].timestamp == start && forall i :: a <= i < j ==> all[i].timestamp == 0;
      if duration <= all[last].timestamp - start {
        assert Spans(all, j, last, duration);
      }
    }
    if i: nat :| Spans(all, i, last, duration) {
      assert a <= i;
    }
  }

  lemma SpannedAfterAppend(s: seq<Record>, r: Record, duration: u64)
    ensures WindowSpanned(s + [r], duration)
            <==> WindowSpanned(s, duration) || SpannedAt(s + [r], |s|, duration)
  {
    forall i: nat, j: nat | j < |s|
      ensures Spans(s + [r], i, j, duration) <==> Spans(s, i, j, duration)
    {
      forall k: nat | i <= k < j
        ensures Kept(s + [r], k, j, duration) <==> Kept(s, k, j, duration)
      {
        KeptAfterAppend(s, r, k, j, duration);
      }
    }
  }

  ghost predicate ExactInv(tr: Trace) {
    var all := Records(tr.removed) + tr.state.window;
    && Reasons(tr.removed, all, tr.state.duration)
    && StartKnown(tr)
    && (tr.state.firstComplete <==> WindowSpanned(all, tr.state.duration))
  }

  /** What is in the ring is not too old. */
  lemma WindowIsKept(c: Calc, past: seq<Record>, i: nat)
    requires CalcInv(c) && i < |c.window|
    ensures Kept(past + c.window, |past| + i, |past + c.window| - 1, c.duration)
  {
    var all := past + c.window;
    assert all[|past| + i] == c.window[i] && all[|all| - 1] == c.window[|c.window| - 1];
  }

  lemma AnchorSplits(removed: seq<Removal>, c: Calc, all: seq<Record>)
    requires CalcInv(c) == true && c.window != [] && all == Records(removed) + c.window
    requires Reasons(removed, all, c.duration) == true
    ensures KeptFrom(all, Anchor(removed), |all| - 1, c.duration) == true
  {
    var last := |all| - 1;
    forall k: nat | Anchor(removed) <= k < last
      ensures Kept(all, k, last, c.duration)
    {
      if |removed| <= k {
        WindowIsKept(c, Records(removed), k - |removed|);
      } else {
        assert Reason(removed, all, k, c.duration);
      }
    }
    var a := Anchor(removed);
    assert 0 < a ==> Reason(removed, all, a - 1, c.duration);
  }

  /** What the accepted records tell, the check finds. */
  lemma CheckOfTrace(tr: Trace)
    requires TraceInv(tr) && StartKnown(tr) && tr.state.window != [] && 0 < tr.state.duration
    requires Reasons(tr.removed, Records(tr.removed) + tr.state.window, tr.state.duration)
    ensures var all, c := Records(tr.removed) + tr.state.window, tr.state;
      (c.duration <= c.lastTradeTime - c.windowStart) == SpannedAt(all, |all| - 1, c.duration)
  {
    CheckOfRing(tr.removed, tr.state, Records(tr.removed) + tr.state.window);
  }

  lemma CheckOfRing(removed: seq<Removal>, c: Calc, all: seq<Record>)
    requires all == Records(removed) + c.window && c.window != [] && 0 < c.duration
    requires CalcInv(c) == true && Sorted(all) == true && Reasons(removed, all, c.duration) == true
    requires StartsFrom(all, Anchor(removed), c.windowStart) == true
    ensures (c.duration <= c.lastTradeTime - c.windowStart) == SpannedAt(all, |all| - 1, c.duration)
  {
    AnchorSplits(removed, c, all);
    NewestIs(Records(removed), c);
    CheckAt(all, Anchor(removed), |all| - 1, c.windowStart, c.lastTradeTime, c.duration);
  }

  lemma CheckAt(all: seq<Record>, a: nat, last: nat, start: u64, now: u64, duration: u64)
    requires a <= last == |all| - 1 && 0 < duration && all[last].timestamp == now
    requires Sorted(all) == true && StartsFrom(all, a, start) == true && KeptFrom(all, a, last, duration) == true
    ensures (duration <= now - start) == SpannedAt(all, last, duration)
  {
    CheckIsSpan(all, a, last, start, duration);
  }

  lemma StepKeepsExact(tr: Trace, t: TradeMessage)
    requires TraceInv(tr) && ExactInv(tr) && 0 < tr.state.duration
    ensures ExactInv(Step(tr, t))
  {
    if Accepts(tr.state, t) {
      StepAppends(tr, t);
      StepKeepsInv(tr, t);
      StepKeepsReasons(tr, t);
      StepKeepsStartKnown(tr, t);
      CheckOfTrace(Step(tr, t));
      SpannedAfterAppend(Records(tr.removed) + tr.state.window, RecordOf(t), tr.state.duration);
    }
  }

  lemma {:induction false} RunKeepsExact(duration: u64, trades: seq<TradeMessage>)
    requires 0 < duration
    ensures ExactInv(Run(duration, trades))
  {
    if trades != [] {
      RunKeepsInv(duration, trades[..|trades| - 1]);
      RunKeepsExact(duration, trades[..|trades| - 1]);
      StepKeepsExact(Run(duration, trades[..|trades| - 1]), trades[|trades| - 1]);
    }
  }

  /** In every run the timestamps of the accepted trades tell which expired and which were displaced. */
  lemma RemovalsAreDetermined(duration: u64, trades: seq<TradeMessage>, k: nat)
    requires 0 < duration && k < |Run(duration, trades).removed|
    ensures var accepted := Accepted(duration, trades);
      && k < |accepted|
      && (Run(duration, trades).removed[k].Expired? <==> !Kept(accepted, k, |accepted| - 1, duration))
  {
    RunKeepsInv(duration, trades);
    RunKeepsExact(duration, trades);
    assert k < |Accepted(duration, trades)|;
    assert Reason(Run(duration, trades).removed, Accepted(duration, trades), k, duration);
  }

  /** No displaced record is older than the cutoff. */
  ghost predicate DisplacedSince(removed: seq<Removal>, cutoff: u64) {
    forall k :: 0 <= k < |removed| && removed[k].Displaced? ==> cutoff <= removed[k].record.timestamp
  }

  lemma DisplacedSinceLast(front: seq<Removal>, last: Removal, cutoff: u64)
    ensures DisplacedSince(front + [last], cutoff)
         == (DisplacedSince(front, cutoff) && (last.Displaced? ==> cutoff <= last.record.timestamp))
  {
    var removed := front + [last];
    assert removed[|front|] == last;
    assert forall k :: 0 <= k < |front| ==> removed[k] == front[k];
  }

  lemma {:induction false} NoneStaleIff(removed: seq<Removal>, cutoff: u64)
    ensures (Stale(DisplacedOf(removed), cutoff) == []) == DisplacedSince(removed, cutoff)
  {
    if removed != [] {
      var front, last := removed[..|removed| - 1], removed[|removed| - 1];
      assert removed == front + [last];
      NoneStaleIff(front, cutoff);
      DisplacedSinceLast(front, last, cutoff);
      var d := DisplacedOf(front);
      assert (d + [last.record])[..|d|] == d && d + [] == d;
    }
  }

  /** Every record older than the cutoff has been evicted for its age. */
  ghost predicate OldOnesExpired(s: seq<Record>, cutoff: u64, duration: u64) {
    forall k: nat :: k < |s| && s[k].timestamp < cutoff ==> !Kept(s, k, |s| - 1, duration)
  }

  lemma DisplacedSinceIsTold(removed: seq<Removal>, all: seq<Record>, cutoff: u64, duration: u64)
    requires |removed| <= |all| && Reasons(removed, all, duration) == true
    requires forall k: nat :: k < |removed| ==> all[k] == removed[k].record
    requires forall k: nat :: |removed| <= k < |all| ==> cutoff <= all[k].timestamp
    ensures DisplacedSince(removed, cutoff) == OldOnesExpired(all, cutoff, duration)
  {
    if DisplacedSince(removed, cutoff) {
      forall k: nat | k < |all| && all[k].timestamp < cutoff
        ensures !Kept(all, k, |all| - 1, duration)
      {
        assert Reason(removed, all, k, duration);
      }
    }
    if OldOnesExpired(all, cutoff, duration) {
      forall k: nat | k < |removed| && removed[k].Displaced?
        ensures cutoff <= removed[k].record.timestamp
      {
        assert Reason(removed, all, k, duration);
        assert all[k] == removed[k].record;
      }
    }
  }

  lemma NoneStaleIsTold(tr: Trace, all: seq<Record>)
    requires TraceInv(tr) && all == Records(tr.removed) + tr.state.window
    requires Reasons(tr.removed, all, tr.state.duration) == true
    ensures var c := tr.state;
      (Stale(DisplacedOf(tr.removed), CutoffOf(c)) == []) == OldOnesExpired(all, CutoffOf(c), c.duration)
  {
    var c := tr.state;
    NoneStaleIff(tr.removed, CutoffOf(c));
    WindowIsLive(tr.removed, c, all);
    DisplacedSinceIsTold(tr.removed, all, CutoffOf(c), c.duration);
  }

  lemma WindowIsLive(removed: seq<Removal>, c: Calc, all: seq<Record>)
    requires CalcInv(c) && all == Records(removed) + c.window
    ensures forall k: nat :: k < |removed| ==> all[k] == removed[k].record
    ensures forall k: nat :: |removed| <= k < |all| ==> CutoffOf(c) <= all[k].timestamp
  {
    forall k: nat | |removed| <= k < |all|
      ensures CutoffOf(c) <= all[k].timestamp
    {
      assert all[k] == c.window[k - |removed|];
    }
  }

  /**
   The condition of TotalsAreWindowedIff, told by the timestamps of the accepted trades: each total is
   that of the window if and only if every trade older than the cutoff was evicted for its age.
   */
  lemma TotalsAreWindowedIffTimes(duration: u64, trades: seq<TradeMessage>)
    requires 0 < duration
    ensures var c, accepted := Run(duration, trades).state, Accepted(duration, trades);
      var live, told := Live(accepted, CutoffOf(c)), OldOnesExpired(accepted, CutoffOf(c), duration);
      && (c.sumVolume == Volume(live) <==> told)
      && (c.sumPriceVolume == Notional(live) <==> told)
  {
    RunKeepsInv(duration, trades);
    RunKeepsExact(duration, trades);
    TotalsAreWindowedIff(duration, trades);
    NoneStaleIsTold(Run(duration, trades), Accepted(duration, trades));
  }

  /**
   In every run, the first window is reported complete if and only if some accepted trade is at least a
   duration younger than an earlier one, not at time zero, with no trade since the earlier one evicted
   for its age.
   */
  lemma ReadyIff(duration: u64, trades: seq<TradeMessage>)
    requires 0 < duration
    ensures HasCompleteWindow(Run(duration, trades).state) <==> WindowSpanned(Accepted(duration, trades), duration)
  {
    RunKeepsInv(duration, trades);
    RunKeepsExact(duration, trades);
  }

  lemma {:induction false} NoDisplacedMeansExpired(removed: seq<Removal>)
    requires DisplacedOf(removed) == []
    ensures forall i :: 0 <= i < |removed| ==> removed[i].Expired?
  {
    if removed != [] {
      NoDisplacedMeansExpired(removed[..|removed| - 1]);
    }
  }

  /** Two records exactly one duration apart span a window, whatever else happens. */
  lemma EqualitySpans(s: seq<Record>, i: nat, j: nat, duration: u64)
    requires Sorted(s) && i < j < |s| && 0 < s[i].timestamp && s[j].timestamp == s[i].timestamp + duration
    ensures Spans(s, i, j, duration)
  {
  }

  /** A span without displacement has its ends exactly one duration apart. */
  lemma SpanIsEquality(tr: Trace, i: nat, j: nat)
    requires TraceInv(tr) && ExactInv(tr) && DisplacedOf(tr.removed) == []
    requires Spans(Records(tr.removed) + tr.state.window, i, j, tr.state.duration)
    ensures var all := Records(tr.removed) + tr.state.window;
      all[j].timestamp == all[i].timestamp + tr.state.duration
  {
    if i + MAX_TRADES <= j {
      LongMeansDisplaced(tr, i, j);
      NoDisplacedMeansExpired(tr.removed);
      assert false;
    }
    assert Kept(Records(tr.removed) + tr.state.window, i, j, tr.state.duration);
  }

  /** A record followed by 10000 others that did not outdate it was displaced. */
  lemma LongMeansDisplaced(tr: Trace, i: nat, j: nat)
    requires TraceInv(tr) && Reasons(tr.removed, Records(tr.removed) + tr.state.window, tr.state.duration)
    requires i + MAX_TRADES <= j < |tr.removed| + |tr.state.window|
    requires Kept(Records(tr.removed) + tr.state.window, i, j, tr.state.duration)
    ensures i < |tr.removed| && tr.removed[i].Displaced?
  {
    var all := Records(tr.removed) + tr.state.window;
    assert Kept(all, i, |all| - 1, tr.state.duration);
    assert Reason(tr.removed, all, i, tr.state.duration);
  }

  lemma SpannedWithoutOverflowIff(tr: Trace, all: seq<Record>)
    requires TraceInv(tr) && ExactInv(tr) && DisplacedOf(tr.removed) == []
    requires all == Records(tr.removed) + tr.state.window
    ensures WindowSpanned(all, tr.state.duration) == DurationApart(all, tr.state.duration)
  {
    var duration := tr.state.duration;
    if i: nat, j: nat :| Spans(all, i, j, duration) {
      SpanIsEquality(tr, i, j);
    }
    if DurationApart(all, duration) {
      var i, j :| 0 <= i < j < |all| && 0 < all[i].timestamp && all[j].timestamp == all[i].timestamp + duration;
      EqualitySpans(all, i, j, duration);
    }
  }

  /**
   Unless the ring has overflowed, the first window is reported complete if and only if two
   accepted trades are exactly one window duration apart.
   */
  lemma ReadyWithoutOverflowIff(duration: u64, trades: seq<TradeMessage>)
    requires 0 < duration && DisplacedOf(Run(duration, trades).removed) == []
    ensures HasCompleteWindow(Run(duration, trades).state) <==> DurationApart(Accepted(duration, trades), duration)
  {
    RunKeepsInv(duration, trades);
    RunKeepsExact(duration, trades);
    SpannedWithoutOverflowIff(Run(duration, trades), Accepted(duration, trades));
  }

  /** The ring cannot have overflowed while at most 10000 trades have been accepted. */
  lemma NoOverflowWhenFew(duration: u64, trades: seq<TradeMessage>)
    requires |Accepted(duration, trades)| <= MAX_TRADES
    ensures DisplacedOf(Run(duration, trades).removed) == []
  {
    if trades != [] {
      var before, t := trades[..|trades| - 1], trades[|trades| - 1];
      var tr := Run(duration, before);
      NoOverflowWhenFew(duration, before);
      RunKeepsInv(duration, before);
      if Accepts(tr.state, t) {
        RemovalsFacts(tr.state, RecordOf(t));
        DisplacedSplit(tr.removed, RemovalsOf(tr.state, RecordOf(t)));
      }
    }
  }

  /** An elapsed window that is not reported: two trades one nanosecond more than a duration apart. */
  lemma ElapsedWindowMissed(duration: u64)
    requires 0 < duration < TWO64 - 2
    ensures var trades := [TradeMessage([0, 0, 0, 0, 0, 0, 0, 0], 1, 1, 1),
                           TradeMessage([0, 0, 0, 0, 0, 0, 0, 0], duration + 2, 1, 1)];
      var accepted := Accepted(duration, trades);
      && |accepted| == 2
      && accepted[1].timestamp - accepted[0].timestamp > duration
      && !HasCompleteWindow(Run(duration, trades).state)
  {
    var t0 := TradeMessage([0, 0, 0, 0, 0, 0, 0, 0], 1, 1, 1);
    var t1 := TradeMessage([0, 0, 0, 0, 0, 0, 0, 0], duration + 2, 1, 1);
    assert [t0, t1][..1] == [t0] && [t0][..0] == [];
    FirstTrade(duration, t0);
    assert Accepted(duration, [t0, t1]) == [RecordOf(t0), RecordOf(t1)];
    NoOverflowWhenFew(duration, [t0, t1]);
    ReadyWithoutOverflowIff(duration, [t0, t1]);
  }

  lemma {:induction false} UnitTotals(s: seq<Record>)
    requires forall i :: 0 <= i < |s| ==> s[i].quantity == s[i].priceVolume == 1
    ensures Volume(s) == Notional(s) == |s|
  {
    if s != [] {
      UnitTotals(s[..|s| - 1]);
      TotalsOfLast(s);
    }
  }

  /** Trades of one unit at price 1 whose times never decrease. */
  predicate UnitTrades(trades: seq<TradeMessage>) {
    && |trades| < TWO64
    && (forall i :: 0 <= i < |trades| ==> trades[i].price == trades[i].quantity == 1)
    && (forall i, j :: 0 <= i < j < |trades| ==> trades[i].timestamp <= trades[j].timestamp)
  }

  function RecordsOf(trades: seq<TradeMessage>): seq<Record> {
    seq(|trades|, i requires 0 <= i < |trades| => RecordOf(trades[i]))
  }

  lemma UnitFront(before: seq<TradeMessage>, t: TradeMessage)
    requires UnitTrades(before + [t])
    ensures UnitTrades(before) && t.price == t.quantity == 1 && |before| + 1 < TWO64
    ensures before != [] ==> before[|before| - 1].timestamp <= t.timestamp
    ensures RecordsOf(before + [t]) == RecordsOf(before) + [RecordOf(t)]
  {
    var s := before + [t];
    assert s[|before|] == t;
    assert forall i :: 0 <= i < |before| ==> s[i] == before[i];
  }

  /** Such trades are all accepted. */
  lemma {:induction false} UnitTradesAccepted(duration: u64, trades: seq<TradeMessage>)
    requires UnitTrades(trades)
    ensures Accepted(duration, trades) == RecordsOf(trades)
  {
    if trades != [] {
      var before, t := trades[..|trades| - 1], trades[|trades| - 1];
      assert trades == before + [t];
      UnitFront(before, t);
      UnitTradesAccepted(duration, before);
      UnitState(duration, before);
      assert Accepts(Run(duration, before).state, t);
    }
  }

  /** What the calculator holds after unit trades that were all accepted. */
  lemma UnitState(duration: u64, trades: seq<TradeMessage>)
    requires UnitTrades(trades) && Accepted(duration, trades) == RecordsOf(trades)
    ensures var c := Run(duration, trades).state;
      && c.sumVolume <= |trades| && c.sumPriceVolume <= |trades|
      && c.lastTradeTime == if trades == [] then 0 else trades[|trades| - 1].timestamp
  {
    UnitSums(trades);
    TotalsOfEveryRun(duration, trades);
    LastAcceptedTime(duration, trades);
  }

  lemma UnitSums(trades: seq<TradeMessage>)
    requires UnitTrades(trades)
    ensures Volume(RecordsOf(trades)) == Notional(RecordsOf(trades)) == |trades|
  {
    UnitRecords(trades);
    UnitTotals(RecordsOf(trades));
  }

  lemma UnitRecords(trades: seq<TradeMessage>)
    requires UnitTrades(trades)
    ensures forall i :: 0 <= i < |trades| ==> RecordsOf(trades)[i] == Record(trades[i].timestamp, 1, 1, 1)
  {
  }

  /** One trade, ten thousand a little later, and one more. */
  function Flood(duration: u64): seq<TradeMessage>
    requires duration < TWO64 - 2
  {
    seq(MAX_TRADES + 2, i requires 0 <= i < MAX_TRADES + 2 =>
      TradeMessage([0, 0, 0, 0, 0, 0, 0, 0], if i == 0 then 1 else if i <= MAX_TRADES then 3 else duration + 2, 1, 1))
  }

  /**
   A full ring can make up for the missing trade: for every duration of at least 3 ns there is a run
   without two trades exactly one duration apart in which the window is nevertheless reported complete.
   */
  lemma FloodIsReported(duration: u64)
    requires 3 <= duration < TWO64 - 2
    ensures HasCompleteWindow(Run(duration, Flood(duration)).state)
    ensures !DurationApart(Accepted(duration, Flood(duration)), duration)
  {
    var s := RecordsOf(Flood(duration));
    UnitTradesAccepted(duration, Flood(duration));
    UnitRecords(Flood(duration));
    ReadyIff(duration, Flood(duration));
    assert forall i :: 0 <= i < |s| ==>
      s[i].timestamp == if i == 0 then 1 else if i <= MAX_TRADES then 3 else duration + 2;
    assert Spans(s, 0, MAX_TRADES + 1, duration);
  }

  lemma FirstTrade(duration: u64, t: TradeMessage)
    requires 0 < duration && t.timestamp == t.quantity == t.price == 1
    ensures Accepted(duration, [t]) == [RecordOf(t)]
    ensures Run(duration, [t]).state.sumVolume <= 1 && Run(duration, [t]).state.sumPriceVolume <= 1
    ensures Run(duration, [t]).state.lastTradeTime == 1
  {
    UnitTradesAccepted(duration, [t]);
    UnitState(duration, [t]);
    assert RecordsOf([t]) == [RecordOf(t)];
  }
}
