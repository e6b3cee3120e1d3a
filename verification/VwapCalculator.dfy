/**
 src/vwap_calculator.cpp and include/vwap_calculator.h: the calculator as written, with its
 overwriting ring, prefix-sum arrays, lazy rebuild, binary-search eviction, 64-bit totals and
 memoised quotient. Every method is proved to do what VwapModel says.
 */
module VwapCalculators {
  import opened MachineInts
  import opened Messages
  import opened BoundedSeq
  import opened CircularBuffers
  import opened VwapModel

  const NANOS_PER_SEC := 1_000_000_000

  predicate WouldAddOverflow(a: u64, b: u64) {
    b > TWO64 - 1 - a
  }

  /** The first n entries of the two prefix arrays are the running totals of w. */
  ghost predicate PrefixSums(volumes: seq<u64>, notionals: seq<u64>, w: seq<Record>, n: nat)
    requires n <= |volumes| && n <= |notionals| && n <= |w|
  {
    forall i :: 0 <= i < n ==> volumes[i] == VolumeTo(w, i + 1) && notionals[i] == NotionalTo(w, i + 1)
  }

  ghost predicate Timestamps(times: seq<u64>, w: seq<Record>, n: nat)
    requires n <= |times| && n <= |w|
  {
    forall i :: 0 <= i < n ==> times[i] == w[i].timestamp
  }

  /** Dropping k entries and subtracting what they summed to gives the prefix sums of the rest. */
  lemma RebasedSums(volumes: seq<u64>, notionals: seq<u64>, volumes': seq<u64>, notionals': seq<u64>,
                    w: seq<Record>, k: nat, n: nat)
    requires k + n == |w| <= |volumes| && |w| <= |notionals| && n <= |volumes'| && n <= |notionals'|
    requires PrefixSums(volumes, notionals, w, |w|)
    requires forall i :: 0 <= i < n ==> volumes'[i] == volumes[i + k] - VolumeTo(w, k)
    requires forall i :: 0 <= i < n ==> notionals'[i] == notionals[i + k] - NotionalTo(w, k)
    ensures PrefixSums(volumes', notionals', w[k..], n)
  {
    forall i | 0 <= i < n
      ensures volumes'[i] == VolumeTo(w[k..], i + 1) && notionals'[i] == NotionalTo(w[k..], i + 1)
    {
      TotalsOfStretch(w, k, w[k..], i + 1);
      assert k + (i + 1) == (i + k) + 1;
    }
  }

  lemma AppendedTotals(w: seq<Record>, r: Record, n: nat)
    requires n <= |w|
    ensures VolumeTo(w + [r], n) == VolumeTo(w, n) && NotionalTo(w + [r], n) == NotionalTo(w, n)
  {
    TotalsOfStretch(w + [r], 0, w, n);
  }

  lemma AppendedSums(volumes: seq<u64>, notionals: seq<u64>, volumes': seq<u64>, notionals': seq<u64>,
                     w: seq<Record>, r: Record)
    requires |w| < |volumes| == |notionals| == |volumes'| == |notionals'|
    requires PrefixSums(volumes, notionals, w, |w|)
    requires forall i :: 0 <= i < |w| ==> volumes'[i] == volumes[i] && notionals'[i] == notionals[i]
    requires volumes'[|w|] == (if w == [] then 0 else volumes[|w| - 1]) + r.quantity
    requires notionals'[|w|] == (if w == [] then 0 else notionals[|w| - 1]) + r.priceVolume
    ensures PrefixSums(volumes', notionals', w + [r], |w| + 1)
  {
    var w' := w + [r];
    forall i | 0 <= i < |w| + 1
      ensures volumes'[i] == VolumeTo(w', i + 1) && notionals'[i] == NotionalTo(w', i + 1)
    {
      if i < |w| {
        AppendedTotals(w, r, i + 1);
      } else {
        AppendedTotals(w, r, i);
      }
    }
  }

  /** Every later prefix weighs at least as much as the first k records. */
  lemma LaterPrefixes(volumes: seq<u64>, notionals: seq<u64>, w: seq<Record>, k: nat)
    requires k <= |w| <= |volumes| && |w| <= |notionals|
    requires PrefixSums(volumes, notionals, w, |w|)
    ensures forall i :: k <= i < |w| ==> VolumeTo(w, k) <= volumes[i] && NotionalTo(w, k) <= notionals[i]
  {
    forall i | k <= i < |w|
      ensures VolumeTo(w, k) <= volumes[i] && NotionalTo(w, k) <= notionals[i]
    {
      TotalsGrow(w, k, i + 1);
    }
  }

  /** In time order, the place where the timestamps reach the cutoff is the lower bound. */
  lemma LowerBoundUnique(s: seq<Record>, cutoff: u64, k: nat)
    requires k <= |s|
    requires forall i :: 0 <= i < k ==> s[i].timestamp < cutoff
    requires k < |s| ==> cutoff <= s[k].timestamp
    ensures LowerBound(s, cutoff) == k
  {
  }

  lemma NothingExpired(c: Calc, now: u64)
    requires c.window == [] || Cutoff(now, c.duration) <= c.window[0].timestamp
    ensures Evicted(c, now) == c
  {
    assert c.window[0..] == c.window;
  }

  lemma StartNotAfter(c: Calc, now: u64)
    requires c.windowStart <= now && Evictable(c, now)
    ensures Evicted(c, now).windowStart <= now
  {
  }

  /** What eviction relies on: time order, totals that cover the window, and now as the newest time. */
  ghost predicate Evictable(c: Calc, now: u64) {
    && Sorted(c.window)
    && Volume(c.window) <= c.sumVolume && Notional(c.window) <= c.sumPriceVolume
    && (c.window != [] ==> c.window[|c.window| - 1].timestamp == now)
  }

  /** memmove towards the front. */
  method MoveDown(a: array<u64>, offset: nat, n: nat)
    requires offset + n <= a.Length
    modifies a
    ensures forall i :: 0 <= i < n ==> a[i] == old(a[i + offset])
  {
    for i := 0 to n
      invariant forall j :: 0 <= j < i ==> a[j] == old(a[j + offset])
      invariant forall j :: i <= j < a.Length ==> a[j] == old(a[j])
    {
      a[i] := a[i + offset];
    }
  }

  /** Subtracts one amount from the first n entries; no subtraction borrows. */
  method SubtractFromAll(a: array<u64>, n: nat, amount: u64)
    requires n <= a.Length && forall i :: 0 <= i < n ==> amount <= a[i]
    modifies a
    ensures forall i :: 0 <= i < n ==> a[i] == old(a[i]) - amount
  {
    for i := 0 to n
      invariant forall j :: 0 <= j < i ==> a[j] == old(a[j]) - amount
      invariant forall j :: i <= j < n ==> a[j] == old(a[j])
    {
      a[i] := Sub64(a[i], amount);
    }
  }

  // Contracts below say `Linked() == true` so that the verifier carries the predicate as one fact.
  class VwapCalculator {
    var sumPriceVolume: u64
    var sumVolume: u64
    var cachedVwap: real
    var vwapCacheValid: bool
    const windowDurationNanos: u64
    const tradeWindow: CircularBuffer<Record>
    const prefixVolume: array<u64>
    const prefixPriceVolume: array<u64>
    const timeIndex: array<u64>
    var oldestIndex: u32
    var prefixGeneration: u32
    var pendingRebuild: bool
    var windowStartTime: u64
    var firstWindowComplete: bool
    var lastTradeTime: u64
    var totalTradesProcessed: u64
    var rejectedTrades: u64

    ghost function Repr(): set<object> {
      {this, prefixVolume, prefixPriceVolume, timeIndex, tradeWindow, tradeWindow.buffer}
    }

    ghost predicate Shape() {
      && prefixVolume.Length == prefixPriceVolume.Length == timeIndex.Length == MAX_TRADES
      && tradeWindow.buffer.Length == MAX_TRADES
      && prefixVolume != prefixPriceVolume && prefixVolume != timeIndex && prefixPriceVolume != timeIndex
      && tradeWindow.buffer as object !in {prefixVolume as object, prefixPriceVolume, timeIndex}
    }

    /** The three arrays agree with a window of records. */
    ghost predicate Indexed(w: seq<Record>)
      requires Shape() && |w| <= MAX_TRADES
      reads prefixVolume, prefixPriceVolume, timeIndex
    {
      PrefixSums(prefixVolume[..], prefixPriceVolume[..], w, |w|) && Timestamps(timeIndex[..], w, |w|)
    }

    /** The arrays are up to date unless the ring is full; then a rebuild is pending. */
    ghost predicate Linked()
      reads this, tradeWindow, tradeWindow.buffer, prefixVolume, prefixPriceVolume, timeIndex
    {
      && Shape()
      && tradeWindow.Valid()
      && (pendingRebuild <==> tradeWindow.count == MAX_TRADES)
      && (!pendingRebuild ==> Indexed(tradeWindow.Contents))
      && (pendingRebuild ==>
            prefixVolume[MAX_TRADES - 2] <= sumVolume && prefixPriceVolume[MAX_TRADES - 2] <= sumPriceVolume)
      && oldestIndex <= 10 * MAX_TRADES
      && (vwapCacheValid ==> cachedVwap == Ratio(sumPriceVolume, sumVolume))
    }

    ghost function Model(): Calc
      requires tradeWindow.Valid()
      reads this, tradeWindow, tradeWindow.buffer
    {
      Calc(windowDurationNanos, tradeWindow.Contents, sumVolume, sumPriceVolume, windowStartTime,
           firstWindowComplete, lastTradeTime, totalTradesProcessed, rejectedTrades)
    }

    ghost predicate Valid()
      reads this, tradeWindow, tradeWindow.buffer, prefixVolume, prefixPriceVolume, timeIndex
    {
      Linked() && CalcInv(Model())
    }

    constructor (windowSeconds: u32)
      ensures Valid() && fresh(Repr())
      ensures Model() == Init(windowSeconds * NANOS_PER_SEC)
    {
      sumPriceVolume, sumVolume, cachedVwap, vwapCacheValid := 0, 0, 0.0, false;
      windowDurationNanos := windowSeconds * NANOS_PER_SEC;
      tradeWindow := new CircularBuffer<Record>(MAX_TRADES, Record(0, 0, 0, 0));
      prefixVolume := new u64[MAX_TRADES](_ => 0);
      prefixPriceVolume := new u64[MAX_TRADES](_ => 0);
      timeIndex := new u64[MAX_TRADES](_ => 0);
      oldestIndex, prefixGeneration, pendingRebuild := 0, 0, false;
      windowStartTime, firstWindowComplete, lastTradeTime := 0, false, 0;
      totalTradesProcessed, rejectedTrades := 0, 0;
    }

    /** Writes the last entry of both prefix arrays; neither addition wraps. */
    method AppendPrefix(qty: u32, pv: u64)
      requires Shape() && tradeWindow.Valid()
      requires 1 < tradeWindow.count ==>
        && prefixVolume[tradeWindow.count - 2] + qty < TWO64
        && prefixPriceVolume[tradeWindow.count - 2] + pv < TWO64
      modifies prefixVolume, prefixPriceVolume
      ensures var n := tradeWindow.count;
        && (0 < n ==>
             && prefixVolume[n - 1] == (if 1 < n then old(prefixVolume[n - 2]) else 0) + qty
             && prefixPriceVolume[n - 1] == (if 1 < n then old(prefixPriceVolume[n - 2]) else 0) + pv)
        && (forall i :: 0 <= i < MAX_TRADES && i != n - 1 ==>
             && prefixVolume[i] == old(prefixVolume[i])
             && prefixPriceVolume[i] == old(prefixPriceVolume[i]))
    {
      var n := tradeWindow.count;
      if n == 0 {
        return;
      }
      var prevV := if n > 1 then prefixVolume[n - 2] else 0;
      var prevPV := if n > 1 then prefixPriceVolume[n - 2] else 0;
      prefixVolume[n - 1] := Add64(prevV, qty);
      prefixPriceVolume[n - 1] := Add64(prevPV, pv);
    }

    /** Stores entry i of the three arrays, behind entries that are right already. */
    method SetEntry(i: nat, v: u64, pv: u64, ts: u64, ghost w: seq<Record>)
      requires Shape() && i < |w| <= MAX_TRADES
      requires v == VolumeTo(w, i + 1) && pv == NotionalTo(w, i + 1) && ts == w[i].timestamp
      requires PrefixSums(prefixVolume[..], prefixPriceVolume[..], w, i) && Timestamps(timeIndex[..], w, i)
      modifies prefixVolume, prefixPriceVolume, timeIndex
      ensures PrefixSums(prefixVolume[..], prefixPriceVolume[..], w, i + 1) == true
      ensures Timestamps(timeIndex[..], w, i + 1) == true
    {
      prefixVolume[i] := v;
      prefixPriceVolume[i] := pv;
      timeIndex[i] := ts;
    }

    /** Recomputes the three arrays from the ring; no running sum wraps. */
    method RebuildPrefixes()
      requires Shape() && tradeWindow.Valid()
      requires Volume(tradeWindow.Contents) < TWO64 && Notional(tradeWindow.Contents) < TWO64
      modifies this`pendingRebuild, this`prefixGeneration, prefixVolume, prefixPriceVolume, timeIndex
      ensures Indexed(tradeWindow.Contents)
      ensures !pendingRebuild && prefixGeneration == (old(prefixGeneration) + 1) % 0x1_0000_0000
    {
      ghost var w := tradeWindow.Contents;
      var v: u64, pv: u64 := 0, 0;
      for i := 0 to tradeWindow.count
        invariant tradeWindow.Valid() && tradeWindow.Contents == w
        invariant prefixGeneration == old(prefixGeneration)
        invariant v == VolumeTo(w, i) && pv == NotionalTo(w, i)
        invariant PrefixSums(prefixVolume[..], prefixPriceVolume[..], w, i)
        invariant Timestamps(timeIndex[..], w, i)
      {
        var tr := tradeWindow.At(i);
        TotalsGrow(w, i + 1, |w|);
        v := Add64(v, tr.quantity);
        pv := Add64(pv, tr.priceVolume);
        SetEntry(i, v, pv, tr.timestamp, w);
      }
      pendingRebuild := false;
      prefixGeneration := Add32(prefixGeneration, 1);
    }

    /** Binary search for the first record at or after the cutoff. */
    method LowerBoundTime(cutoff: u64) returns (k: nat)
      requires tradeWindow.Valid() && Sorted(tradeWindow.Contents)
      ensures k == LowerBound(tradeWindow.Contents, cutoff)
    {
      ghost var w := tradeWindow.Contents;
      var lo, hi := 0, tradeWindow.count;
      while lo < hi
        invariant 0 <= lo <= hi <= |w|
        invariant forall i :: 0 <= i < lo ==> w[i].timestamp < cutoff
        invariant hi < |w| ==> cutoff <= w[hi].timestamp
      {
        var mid := (lo + hi) / 2;
        var tr := tradeWindow.At(mid);
        if tr.timestamp < cutoff {
          lo := mid + 1;
        } else {
          hi := mid;
        }
      }
      k := lo;
      LowerBoundUnique(w, cutoff, k);
    }

    /** The pop_front loop. */
    method DropOldest(k: nat)
      requires tradeWindow.Valid() && k <= tradeWindow.count
      modifies tradeWindow
      ensures tradeWindow.Valid() && tradeWindow.Contents == old(tradeWindow.Contents)[k..]
    {
      ghost var w := tradeWindow.Contents;
      for i := 0 to k
        invariant tradeWindow.Valid() && tradeWindow.Contents == w[i..]
      {
        tradeWindow.PopFront();
      }
    }

    /** Shifts the arrays down by k and subtracts what left; no subtraction borrows. */
    method Rebase(k: nat, n: nat, volRemoved: u64, pvRemoved: u64, ghost w: seq<Record>)
      requires Shape() && k + n == |w| <= MAX_TRADES && Indexed(w)
      requires volRemoved == VolumeTo(w, k) && pvRemoved == NotionalTo(w, k)
      modifies prefixVolume, prefixPriceVolume, timeIndex
      ensures Indexed(w[k..])
    {
      ghost var volumes, notionals := prefixVolume[..], prefixPriceVolume[..];
      LaterPrefixes(volumes, notionals, w, k);
      MoveDown(prefixVolume, k, n);
      MoveDown(prefixPriceVolume, k, n);
      MoveDown(timeIndex, k, n);
      SubtractFromAll(prefixVolume, n, volRemoved);
      SubtractFromAll(prefixPriceVolume, n, pvRemoved);
      RebasedSums(volumes, notionals, prefixVolume[..], prefixPriceVolume[..], w, k, n);
    }

    /** Removes the k oldest records from the ring, the totals and the arrays. */
    method Evict(k: nat, ghost w: seq<Record>)
      requires Shape() && tradeWindow.Valid() && tradeWindow.Contents == w
      requires Indexed(w) && 0 < k < |w|
      requires Volume(w) <= sumVolume && Notional(w) <= sumPriceVolume && oldestIndex <= 10 * MAX_TRADES
      modifies this`sumVolume, this`sumPriceVolume, this`oldestIndex, this`windowStartTime, this`vwapCacheValid
      modifies tradeWindow, prefixVolume, prefixPriceVolume, timeIndex
      ensures tradeWindow.Valid() && tradeWindow.Contents == w[k..] && Indexed(w[k..])
      ensures sumVolume == old(sumVolume) - VolumeTo(w, k)
      ensures sumPriceVolume == old(sumPriceVolume) - NotionalTo(w, k)
      ensures windowStartTime == w[k].timestamp
      ensures !vwapCacheValid && oldestIndex <= 10 * MAX_TRADES
    {
      var volRemoved := prefixVolume[k - 1];
      var pvRemoved := prefixPriceVolume[k - 1];
      TotalsGrow(w, k, |w|);
      DropOldest(k);
      sumVolume := Sub64(sumVolume, volRemoved);
      sumPriceVolume := Sub64(sumPriceVolume, pvRemoved);
      Rebase(k, tradeWindow.count, volRemoved, pvRemoved, w);
      oldestIndex := Add32(oldestIndex, k);
      if oldestIndex > 10 * MAX_TRADES {
        oldestIndex := MAX_TRADES;
      }
      if tradeWindow.count == 0 {
        assert false;
      } else {
        var front := tradeWindow.Front();
        windowStartTime := front.timestamp;
      }
      vwapCacheValid := false;
    }

    /** The lazy rebuild that precedes an eviction. */
    method Refresh()
      requires Linked()
      requires Volume(tradeWindow.Contents) < TWO64 && Notional(tradeWindow.Contents) < TWO64
      modifies this`pendingRebuild, this`prefixGeneration, prefixVolume, prefixPriceVolume, timeIndex
      ensures !pendingRebuild && Indexed(tradeWindow.Contents)
    {
      if pendingRebuild {
        RebuildPrefixes();
      }
    }

    /** Eviction when the oldest record has expired: rebuild if need be, search, evict. */
    method EvictExpired(cutoff: u64, ghost now: u64)
      requires Linked() == true && Evictable(Model(), now)
      requires cutoff == Cutoff(now, windowDurationNanos) && 0 < tradeWindow.count
      requires tradeWindow.Contents[0].timestamp < cutoff
      modifies this`sumVolume, this`sumPriceVolume, this`vwapCacheValid, this`oldestIndex, this`prefixGeneration
      modifies this`pendingRebuild, this`windowStartTime, tradeWindow, prefixVolume, prefixPriceVolume, timeIndex
      ensures Linked() == true && Model() == Evicted(old(Model()), now)
    {
      ghost var w := tradeWindow.Contents;
      Refresh();
      var removeCount := LowerBoundTime(cutoff);
      if removeCount == 0 {
        assert false;
      }
      assert w[|w| - 1].timestamp == now;
      Evict(removeCount, w);
    }

    /**
     Evicts what is older than the cutoff. A search that finds nothing and a window left empty,
     both tested for by the source, are impossible.
     */
    method RemoveExpiredTrades(currentTime: u64)
      requires Linked() == true && Evictable(Model(), currentTime)
      modifies this`sumVolume, this`sumPriceVolume, this`vwapCacheValid, this`oldestIndex, this`prefixGeneration
      modifies this`pendingRebuild, this`windowStartTime, tradeWindow, prefixVolume, prefixPriceVolume, timeIndex
      ensures Linked() == true && Model() == Evicted(old(Model()), currentTime)
    {
      var cutoff := Cutoff(currentTime, windowDurationNanos);
      if tradeWindow.count == 0 {
        NothingExpired(Model(), currentTime);
        return;
      }
      var oldest := tradeWindow.Front();
      if oldest.timestamp >= cutoff {
        NothingExpired(Model(), currentTime);
        return;
      }
      EvictExpired(cutoff, currentTime);
    }

    /** Extends the arrays for the record just pushed; on a ring already full the sum is stale. */
    method ExtendIndex(r: Record, ghost w: seq<Record>)
      requires Shape() && tradeWindow.Valid()
      requires tradeWindow.Contents == PushBounded(w, r, MAX_TRADES) && |w| <= MAX_TRADES
      requires |w| < MAX_TRADES ==> Indexed(w) && Volume(w) + r.quantity < TWO64 && Notional(w) + r.priceVolume < TWO64
      requires |w| == MAX_TRADES ==>
        && prefixVolume[MAX_TRADES - 2] + r.quantity < TWO64
        && prefixPriceVolume[MAX_TRADES - 2] + r.priceVolume < TWO64
      modifies prefixVolume, prefixPriceVolume, timeIndex
      ensures |w| < MAX_TRADES ==> Indexed(w + [r])
      ensures |w| == MAX_TRADES ==>
        && prefixVolume[MAX_TRADES - 2] == old(prefixVolume[MAX_TRADES - 2])
        && prefixPriceVolume[MAX_TRADES - 2] == old(prefixPriceVolume[MAX_TRADES - 2])
    {
      ghost var volumes, notionals := prefixVolume[..], prefixPriceVolume[..];
      AppendPrefix(r.quantity, r.priceVolume);
      var n := tradeWindow.count;
      if n != 0 {
        timeIndex[n - 1] := r.timestamp;
      }
      if |w| < MAX_TRADES {
        AppendedSums(volumes, notionals, prefixVolume[..], prefixPriceVolume[..], w, r);
      }
    }

    /** What a ring that has just become full keeps below its last prefix sums. */
    lemma SumsBelow(w: seq<Record>, i: nat)
      requires Shape() && |w| <= MAX_TRADES && Indexed(w) && i < |w|
      ensures prefixVolume[i] <= Volume(w) && prefixPriceVolume[i] <= Notional(w)
    {
      TotalsGrow(w, i + 1, |w|);
    }

    /** Push, mark a full ring for rebuild, extend the arrays. */
    method PushAndIndex(r: Record, ghost w: seq<Record>)
      requires Linked() == true && tradeWindow.Contents == w
      requires Volume(w) <= sumVolume && Notional(w) <= sumPriceVolume
      requires sumVolume + r.quantity < TWO64 && sumPriceVolume + r.priceVolume < TWO64
      modifies this`pendingRebuild, tradeWindow, tradeWindow.buffer, prefixVolume, prefixPriceVolume, timeIndex
      ensures tradeWindow.Valid() && tradeWindow.Contents == PushBounded(w, r, MAX_TRADES)
      ensures pendingRebuild <==> tradeWindow.count == MAX_TRADES
      ensures !pendingRebuild ==> Indexed(tradeWindow.Contents)
      ensures pendingRebuild ==>
        && prefixVolume[MAX_TRADES - 2] <= sumVolume + r.quantity
        && prefixPriceVolume[MAX_TRADES - 2] <= sumPriceVolume + r.priceVolume
    {
      tradeWindow.PushBack(r);
      if tradeWindow.count == MAX_TRADES {
        pendingRebuild := true;
      }
      ExtendIndex(r, w);
      if |w| == MAX_TRADES - 1 {
        TotalsSplit(w, [r]);
        TotalsOne(r);
        SumsBelow(w + [r], MAX_TRADES - 2);
      }
    }

    /** The accepting part of addTrade up to eviction: push and install the new totals. */
    method PushRecord(r: Record, newPV: u64, newVol: u64)
      requires Linked()
      requires Volume(tradeWindow.Contents) <= sumVolume && Notional(tradeWindow.Contents) <= sumPriceVolume
      requires newVol == sumVolume + r.quantity && newPV == sumPriceVolume + r.priceVolume
      modifies this`sumVolume, this`sumPriceVolume, this`vwapCacheValid, this`pendingRebuild, this`windowStartTime
      modifies tradeWindow, tradeWindow.buffer, prefixVolume, prefixPriceVolume, timeIndex
      ensures Linked() == true && Model() == Pushed(old(Model()), r)
    {
      if windowStartTime == 0 {
        windowStartTime := r.timestamp;
      }
      PushAndIndex(r, tradeWindow.Contents);
      sumPriceVolume := newPV;
      sumVolume := newVol;
      vwapCacheValid := false;
    }

    method Reject()
      requires Linked()
      modifies this`rejectedTrades
      ensures Linked() == true && Model() == old(Model()).(rejectedTrades := Add64(old(rejectedTrades), 1))
    {
      rejectedTrades := Add64(rejectedTrades, 1);
    }

    method CountTrade(ts: u64)
      requires Linked()
      modifies this`totalTradesProcessed, this`lastTradeTime
      ensures Linked() == true
      ensures Model() == old(Model()).(totalTrades := Add64(old(totalTradesProcessed), 1), lastTradeTime := ts)
    {
      totalTradesProcessed := Add64(totalTradesProcessed, 1);
      lastTradeTime := ts;
    }

    /** The first-window check that ends addTrade; its subtraction does not borrow. */
    method CheckFirstWindow(ts: u64)
      requires Linked() == true && windowStartTime <= ts
      modifies this`firstWindowComplete
      ensures Linked() == true
      ensures Model() == old(Model()).(
        firstComplete := old(firstWindowComplete) || windowDurationNanos <= ts - windowStartTime)
    {
      if !firstWindowComplete && Sub64(ts, windowStartTime) >= windowDurationNanos {
        firstWindowComplete := true;
      }
    }

    /** The end of addTrade: count the trade, evict, check for the first complete window. */
    method FinishTrade(ts: u64)
      requires Linked() == true && Evictable(Model(), ts) && windowStartTime <= ts
      modifies Repr()
      ensures Linked() == true && Model() == Finished(old(Model()), ts)
    {
      StartNotAfter(Model(), ts);
      CountTrade(ts);
      RemoveExpiredTrades(ts);
      CheckFirstWindow(ts);
    }

    /** The part of addTrade that follows the guards. */
    method AcceptTrade(r: Record, newPV: u64, newVol: u64)
      requires Valid() && lastTradeTime <= r.timestamp
      requires newVol == sumVolume + r.quantity && newPV == sumPriceVolume + r.priceVolume
      modifies Repr()
      ensures Linked() == true && Model() == Accept(old(Model()), r)
    {
      PushedFacts(Model(), r);
      PushRecord(r, newPV, newVol);
      FinishTrade(r.timestamp);
    }

    /** The guards of addTrade, in order, and the product they compute. */
    method Admit(trade: TradeMessage) returns (ok: bool, product: u64)
      requires Valid()
      ensures ok == Accepts(Model(), trade) && (ok ==> product == trade.price * trade.quantity)
    {
      product := 0;
      if trade.price <= 0 || trade.quantity == 0 {
        return false, product;
      }
      if lastTradeTime != 0 && trade.timestamp < lastTradeTime {
        return false, product;
      }
      ProductFits(trade);
      product := ToU64(trade.price) * trade.quantity;
      if product > TWO64 - 1 {
        return false, product;
      }
      if WouldAddOverflow(sumPriceVolume, product) || WouldAddOverflow(sumVolume, trade.quantity) {
        return false, product;
      }
      return true, product;
    }

    method AddTrade(trade: TradeMessage)
      requires Valid()
      modifies Repr()
      ensures Valid() && Model() == VwapModel.AddTrade(old(Model()), trade)
    {
      var ok, product := Admit(trade);
      if !ok {
        Reject();
        return;
      }
      ProductFits(trade);
      AcceptKeepsInv(Model(), RecordOf(trade));
      AcceptTrade(RecordOf(trade), Add64(sumPriceVolume, product), Add64(sumVolume, trade.quantity));
    }

    /** The memoised quotient: cached or fresh, it is the current ratio of the totals. */
    method GetCurrentVwap() returns (vwap: real)
      requires Valid()
      modifies this`cachedVwap, this`vwapCacheValid
      ensures Valid() && Model() == old(Model()) && vwap == Vwap(Model())
    {
      if !vwapCacheValid {
        cachedVwap := if sumVolume == 0 then 0.0 else sumPriceVolume as real / sumVolume as real;
        vwapCacheValid := true;
      }
      vwap := cachedVwap;
    }

    method HasCompleteWindow() returns (b: bool)
      requires Valid()
      ensures b <==> VwapModel.HasCompleteWindow(Model())
    {
      b := firstWindowComplete && tradeWindow.count != 0;
    }
  }
}
