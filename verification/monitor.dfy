/** The per-tick cycle of `checkLiquidityChange` and the one-slot store of the
    previous snapshot that survives between ticks. */
module Monitor {

  import opened Wrappers
  import opened Pool
  import opened Detector

  /** The fixed text handed to the notifier on an alert. */
  const AlertMessage: string := "Liquidity change alert!"

  /** One completed cycle: the new contents of the store and the messages
      handed to the notifier during the cycle. */
  datatype StepResult = StepResult(store: Option<Snapshot>, sent: seq<string>)

  /** A cycle that runs to its end, with the pool fetch abstracted to its
      outcome: a snapshot, or nothing when the pool account does not exist. */
  function Step(prev: Option<Snapshot>, fetched: Option<Snapshot>): (r: StepResult)
    ensures r.store == fetched
    ensures |r.sent| <= 1
    ensures forall i :: 0 <= i < |r.sent| ==> r.sent[i] == AlertMessage
    ensures |r.sent| == 1 <==> Detect(prev, fetched)
    ensures r.sent != [] ==> prev.Some? && fetched.Some?
  {
    StepResult(fetched, if Detect(prev, fetched) then [AlertMessage] else [])
  }

  /** The store ends up holding exactly this cycle's fetch result, whether or
      not an alert fired; a missing pool clears it. */
  lemma StoreIsLastFetch(prev: Option<Snapshot>, fetched: Option<Snapshot>)
    ensures Step(prev, fetched).store == fetched
    ensures fetched.None? ==> Step(prev, fetched).store.None?
  {
  }

  // ---------------------------------------------------------------------
  // The cycle with its failure paths

  /** What the pool fetch did: produced a snapshot, found no pool account, or
      threw (an RPC failure or an undecodable account). */
  datatype FetchOutcome = Found(snapshot: Snapshot) | AccountMissing | FetchThrew

  /** Whether the notifier accepted the message or rejected it. */
  datatype Delivery = Delivered | DeliveryRejected

  /** A cycle's effect: the new store, the messages handed to the notifier, and
      whether the cycle reached its final store update. */
  datatype CycleResult = CycleResult(store: Option<Snapshot>, sent: seq<string>, completed: bool)

  /** The snapshot a non-throwing fetch yields. */
  function Fetched(outcome: FetchOutcome): Option<Snapshot>
  {
    if outcome.Found? then Some(outcome.snapshot) else None
  }

  /** A cycle in which the fetch may throw and the notifier may reject. An
      exception leaves the cycle before the store update, so the previous
      snapshot stays in place; otherwise the cycle is exactly `Step`. */
  function Cycle(prev: Option<Snapshot>, outcome: FetchOutcome, delivery: Delivery): (r: CycleResult)
    ensures outcome.FetchThrew? ==> r.sent == [] && r.store == prev && !r.completed
    ensures !outcome.FetchThrew? ==> r.sent == Step(prev, Fetched(outcome)).sent
    ensures r.completed <==> !outcome.FetchThrew? && (r.sent == [] || delivery.Delivered?)
    ensures r.completed ==> r.store == Fetched(outcome)
    ensures !r.completed ==> r.store == prev
  {
    match outcome
    case FetchThrew => CycleResult(prev, [], false)
    case _ =>
      var s := Step(prev, Fetched(outcome));
      if s.sent != [] && delivery.DeliveryRejected? then CycleResult(prev, s.sent, false)
      else CycleResult(s.store, s.sent, true)
  }

  /** A throwing fetch keeps the previous snapshot, while a missing pool
      account clears it: the two failures are not treated alike. */
  lemma FetchErrorKeepsMissingClears(prev: Option<Snapshot>, delivery: Delivery)
    ensures Cycle(prev, FetchThrew, delivery).store == prev
    ensures Cycle(prev, AccountMissing, delivery).store == None
    ensures Cycle(prev, FetchThrew, delivery).sent == []
    ensures Cycle(prev, AccountMissing, delivery).sent == []
  {
  }

  /** A rejected delivery leaves the old snapshot in the store, so fetching
      the same new snapshot on the next tick alerts again; had the delivery
      succeeded, the next tick would compare the snapshot with itself and stay
      silent. This presumes the process outlives the cycle's rejected promise
      and keeps ticking. */
  lemma RejectedDeliveryRealerts(p: Snapshot, c: Snapshot)
    requires Detect(Some(p), Some(c))
    ensures Cycle(Some(p), Found(c), DeliveryRejected).store == Some(p)
    ensures Step(Cycle(Some(p), Found(c), DeliveryRejected).store, Some(c)).sent == [AlertMessage]
    ensures Step(Cycle(Some(p), Found(c), Delivered).store, Some(c)).sent == []
  {
    assert !Detect(Some(c), Some(c)) by {
      if c.base != 0.0 {
        assert Abs(c.base - c.base) == 0.0;
      }
    }
  }

  // ---------------------------------------------------------------------
  // Many cycles in sequence

  /** Number of `true` entries. */
  function CountTrue(bs: seq<bool>): (n: nat)
    ensures n <= |bs|
  {
    if |bs| == 0 then 0 else (if bs[0] then 1 else 0) + CountTrue(bs[1..])
  }

  lemma {:induction false} CountTrueAppend(bs: seq<bool>, b: bool)
    ensures CountTrue(bs + [b]) == CountTrue(bs) + (if b then 1 else 0)
  {
    if |bs| == 0 {
      assert bs + [b] == [b];
    } else {
      assert (bs + [b])[1..] == bs[1..] + [b];
      CountTrueAppend(bs[1..], b);
    }
  }

  /** The outcome of running several cycles from a given store: the final
      store, whether each cycle handed the alert to the notifier, and every
      message sent, in order. In `Run` every cycle completes, so `fired[i]`
      is exactly the detector's decision; in `RunCycles` it is true when the
      message was handed over, whether or not its delivery succeeded. */
  datatype Trace = Trace(store: Option<Snapshot>, fired: seq<bool>, sent: seq<string>)

  /** The store as it stands when cycle `i` starts. */
  function PrevAt(prev: Option<Snapshot>, fetches: seq<Option<Snapshot>>, i: nat): (s: Option<Snapshot>)
    requires i <= |fetches|
  {
    if i == 0 then prev else fetches[i - 1]
  }

  /** Runs one completed cycle per fetch result, threading the store. */
  function Run(prev: Option<Snapshot>, fetches: seq<Option<Snapshot>>): (t: Trace)
    ensures |t.fired| == |fetches|
    ensures t.store == PrevAt(prev, fetches, |fetches|)
    ensures |t.sent| == CountTrue(t.fired)
    ensures forall i :: 0 <= i < |t.sent| ==> t.sent[i] == AlertMessage
    decreases |fetches|
  {
    if |fetches| == 0 then Trace(prev, [], [])
    else
      var s := Step(prev, fetches[0]);
      var rest := Run(s.store, fetches[1..]);
      assert ([|s.sent| == 1] + rest.fired)[1..] == rest.fired;
      Trace(rest.store, [|s.sent| == 1] + rest.fired, s.sent + rest.sent)
  }

  /** Cycle `i` compares fetch `i` with fetch `i - 1` (or with the starting
      store for the first cycle): the store is a window of width one. */
  lemma {:induction false} RunComparesConsecutive(prev: Option<Snapshot>, fetches: seq<Option<Snapshot>>)
    ensures forall i :: 0 <= i < |fetches| ==>
              Run(prev, fetches).fired[i] == Detect(PrevAt(prev, fetches, i), fetches[i])
    decreases |fetches|
  {
    if |fetches| > 0 {
      var tail := fetches[1..];
      RunComparesConsecutive(fetches[0], tail);
      var t := Run(prev, fetches);
      var rest := Run(fetches[0], tail);
      assert t.fired == [Detect(prev, fetches[0])] + rest.fired;
      forall i | 0 < i < |fetches|
        ensures t.fired[i] == Detect(PrevAt(prev, fetches, i), fetches[i])
      {
        assert t.fired[i] == rest.fired[i - 1];
        assert tail[i - 1] == fetches[i];
        assert PrevAt(fetches[0], tail, i - 1) == fetches[i - 1];
      }
    }
  }

  /** `Run` is the only trace with the final store, per-cycle decisions and
      messages it is characterised by. */
  lemma RunCharacterized(prev: Option<Snapshot>, fetches: seq<Option<Snapshot>>, t: Trace)
    requires t.store == PrevAt(prev, fetches, |fetches|)
    requires |t.fired| == |fetches|
    requires forall i :: 0 <= i < |fetches| ==> t.fired[i] == Detect(PrevAt(prev, fetches, i), fetches[i])
    requires |t.sent| == CountTrue(t.fired)
    requires forall i :: 0 <= i < |t.sent| ==> t.sent[i] == AlertMessage
    ensures t == Run(prev, fetches)
  {
    var r := Run(prev, fetches);
    RunComparesConsecutive(prev, fetches);
    assert t.fired == r.fired;
    assert t.sent == r.sent;
  }

  /** Starting with an empty store, the first cycle never alerts. */
  lemma FirstCycleSilent(fetches: seq<Option<Snapshot>>)
    requires |fetches| > 0
    ensures !Run(None, fetches).fired[0]
  {
    RunComparesConsecutive(None, fetches);
  }

  /** An alert needs two consecutive successful fetches. */
  lemma AlertNeedsTwoConsecutiveFetches(prev: Option<Snapshot>, fetches: seq<Option<Snapshot>>, i: nat)
    requires 0 < i < |fetches|
    requires Run(prev, fetches).fired[i]
    ensures fetches[i - 1].Some? && fetches[i].Some?
  {
    RunComparesConsecutive(prev, fetches);
  }

  /** A cycle that finds no pool account silences the cycle after it, whatever
      that cycle fetches: detection restarts from nothing. */
  lemma MissingFetchResetsDetection(prev: Option<Snapshot>, fetches: seq<Option<Snapshot>>, i: nat)
    requires i + 1 < |fetches|
    requires fetches[i].None?
    ensures !Run(prev, fetches).fired[i + 1]
  {
    RunComparesConsecutive(prev, fetches);
  }

  /** Two ticks: base 100 then base 94 sends exactly one alert, from the second
      tick, and leaves the second snapshot in the store. */
  lemma TwoTickScenario(q1: Amount, q2: Amount)
    ensures Run(None, [Some(Snapshot(100.0, q1)), Some(Snapshot(94.0, q2))])
         == Trace(Some(Snapshot(94.0, q2)), [false, true], [AlertMessage])
  {
    var fetches := [Some(Snapshot(100.0, q1)), Some(Snapshot(94.0, q2))];
    WorkedCases(q1, q2);
    assert fetches[1..] == [Some(Snapshot(94.0, q2))];
    assert fetches[1..][1..] == [];
  }

  // ---------------------------------------------------------------------
  // Many cycles in sequence, with their failure paths

  /** What one tick met: the fetch outcome and, should it alert, the delivery. */
  datatype Tick = Tick(outcome: FetchOutcome, delivery: Delivery)

  /** The snapshots the ticks' fetches yield, a throw counting as nothing. */
  function Fetches(ticks: seq<Tick>): seq<Option<Snapshot>>
  {
    seq(|ticks|, i requires 0 <= i < |ticks| => Fetched(ticks[i].outcome))
  }

  /** The results of the fetches that did not throw, in order: the only
      values a tick can write into the store. */
  function Adoptable(ticks: seq<Tick>): seq<Option<Snapshot>>
  {
    if |ticks| == 0 then []
    else if ticks[0].outcome.FetchThrew? then Adoptable(ticks[1..])
    else [Fetched(ticks[0].outcome)] + Adoptable(ticks[1..])
  }

  /** Every tick reaches the store update: no fetch throws and every alert is
      delivered. */
  predicate AllComplete(ticks: seq<Tick>)
  {
    forall i :: 0 <= i < |ticks| ==>
      !ticks[i].outcome.FetchThrew? && ticks[i].delivery.Delivered?
  }

  /** Runs `Cycle` once per tick, threading the store. `fired[i]` records
      whether tick `i` handed the alert to the notifier. */
  function RunCycles(prev: Option<Snapshot>, ticks: seq<Tick>): (t: Trace)
    ensures |t.fired| == |ticks|
    ensures |t.sent| == CountTrue(t.fired)
    ensures forall i :: 0 <= i < |t.sent| ==> t.sent[i] == AlertMessage
    ensures t.store == prev || t.store in Adoptable(ticks)
    decreases |ticks|
  {
    if |ticks| == 0 then Trace(prev, [], [])
    else
      var c := Cycle(prev, ticks[0].outcome, ticks[0].delivery);
      var rest := RunCycles(c.store, ticks[1..]);
      assert ([|c.sent| == 1] + rest.fired)[1..] == rest.fired;
      assert Fetches(ticks[1..]) == Fetches(ticks)[1..];
      assert c.store == prev || c.store == Fetches(ticks)[0];
      Trace(rest.store, [|c.sent| == 1] + rest.fired, c.sent + rest.sent)
  }

  /** When every tick completes, the failure-aware run is the run of
      completed cycles over what was fetched. */
  lemma {:induction false} RunCyclesRefinesRun(prev: Option<Snapshot>, ticks: seq<Tick>)
    requires AllComplete(ticks)
    ensures RunCycles(prev, ticks) == Run(prev, Fetches(ticks))
    decreases |ticks|
  {
    if |ticks| > 0 {
      var tail := ticks[1..];
      assert AllComplete(tail) by {
        forall i | 0 <= i < |tail|
          ensures !tail[i].outcome.FetchThrew? && tail[i].delivery.Delivered?
        {
          assert tail[i] == ticks[i + 1];
        }
      }
      var fs := Fetches(ticks);
      assert fs[0] == Fetched(ticks[0].outcome);
      assert fs[1..] == Fetches(tail);
      var c := Cycle(prev, ticks[0].outcome, ticks[0].delivery);
      assert c.store == fs[0];
      RunCyclesRefinesRun(fs[0], tail);
    }
  }

  /** A tick whose fetch throws, appended to any run, leaves the final store
      where the run left it and sends nothing more. */
  lemma {:induction false} ThrowingTickKeepsStore(prev: Option<Snapshot>, ticks: seq<Tick>, d: Delivery)
    ensures RunCycles(prev, ticks + [Tick(FetchThrew, d)]).store == RunCycles(prev, ticks).store
    ensures RunCycles(prev, ticks + [Tick(FetchThrew, d)]).sent == RunCycles(prev, ticks).sent
    decreases |ticks|
  {
    var more := ticks + [Tick(FetchThrew, d)];
    if |ticks| == 0 {
      assert more[1..] == [];
    } else {
      assert more[0] == ticks[0];
      assert more[1..] == ticks[1..] + [Tick(FetchThrew, d)];
      var c := Cycle(prev, ticks[0].outcome, ticks[0].delivery);
      ThrowingTickKeepsStore(c.store, ticks[1..], d);
    }
  }

  /** Running one more tick extends the trace by that tick's cycle, started
      from the store the earlier ticks left. */
  lemma RunCyclesSnoc(prev: Option<Snapshot>, ticks: seq<Tick>, k: Tick)
    ensures var t := RunCycles(prev, ticks);
            var c := Cycle(t.store, k.outcome, k.delivery);
            RunCycles(prev, ticks + [k]) == Trace(c.store, t.fired + [|c.sent| == 1], t.sent + c.sent)
  {
    SnocStore(prev, ticks, k);
    SnocFired(prev, ticks, k);
    SnocSent(prev, ticks, k);
  }

  lemma {:induction false} SnocStore(prev: Option<Snapshot>, ticks: seq<Tick>, k: Tick)
    ensures RunCycles(prev, ticks + [k]).store
         == Cycle(RunCycles(prev, ticks).store, k.outcome, k.delivery).store
    decreases |ticks|
  {
    var more := ticks + [k];
    if |ticks| == 0 {
      assert more[1..] == [];
    } else {
      assert more[0] == ticks[0];
      assert more[1..] == ticks[1..] + [k];
      SnocStore(Cycle(prev, ticks[0].outcome, ticks[0].delivery).store, ticks[1..], k);
    }
  }

  lemma {:induction false} SnocFired(prev: Option<Snapshot>, ticks: seq<Tick>, k: Tick)
    ensures RunCycles(prev, ticks + [k]).fired
         == RunCycles(prev, ticks).fired + [|Cycle(RunCycles(prev, ticks).store, k.outcome, k.delivery).sent| == 1]
    decreases |ticks|
  {
    var more := ticks + [k];
    if |ticks| == 0 {
      assert more[1..] == [];
    } else {
      assert more[0] == ticks[0];
      assert more[1..] == ticks[1..] + [k];
      var c := Cycle(prev, ticks[0].outcome, ticks[0].delivery);
      SnocFired(c.store, ticks[1..], k);
      SnocStore(c.store, ticks[1..], k);
    }
  }

  lemma {:induction false} SnocSent(prev: Option<Snapshot>, ticks: seq<Tick>, k: Tick)
    ensures RunCycles(prev, ticks + [k]).sent
         == RunCycles(prev, ticks).sent + Cycle(RunCycles(prev, ticks).store, k.outcome, k.delivery).sent
    decreases |ticks|
  {
    var more := ticks + [k];
    if |ticks| == 0 {
      assert more[1..] == [];
    } else {
      assert more[0] == ticks[0];
      assert more[1..] == ticks[1..] + [k];
      var c := Cycle(prev, ticks[0].outcome, ticks[0].delivery);
      SnocSent(c.store, ticks[1..], k);
    }
  }

  /** The final store is the last tick's fetch result when that tick reached
      the store update, and the store the earlier ticks left otherwise. */
  lemma RunCyclesFinalStore(prev: Option<Snapshot>, ticks: seq<Tick>, k: Tick)
    ensures var before := RunCycles(prev, ticks).store;
            RunCycles(prev, ticks + [k]).store ==
              if Cycle(before, k.outcome, k.delivery).completed then Fetched(k.outcome) else before
  {
    RunCyclesSnoc(prev, ticks, k);
  }

  /** A run's per-tick record is the record of the run cut off after that
      tick: later ticks never rewrite earlier ones. */
  lemma {:induction false} RunCyclesPrefix(prev: Option<Snapshot>, ticks: seq<Tick>, n: nat)
    requires n <= |ticks|
    ensures RunCycles(prev, ticks).fired[..n] == RunCycles(prev, ticks[..n]).fired
    decreases |ticks|
  {
    if n > 0 {
      var c := Cycle(prev, ticks[0].outcome, ticks[0].delivery);
      assert ticks[..n][0] == ticks[0];
      assert ticks[..n][1..] == ticks[1..][..n - 1];
      RunCyclesPrefix(c.store, ticks[1..], n - 1);
    }
  }

  /** Tick `i` hands the alert to the notifier exactly when its fetch did not
      throw and the detector alerts on the store left by the ticks before it
      against what tick `i` fetched. */
  lemma RunCyclesDecision(prev: Option<Snapshot>, ticks: seq<Tick>, i: nat)
    requires i < |ticks|
    ensures RunCycles(prev, ticks).fired[i] <==>
              !ticks[i].outcome.FetchThrew? &&
              Detect(RunCycles(prev, ticks[..i]).store, Fetched(ticks[i].outcome))
  {
    RunCyclesPrefix(prev, ticks, i + 1);
    assert ticks[..i + 1] == ticks[..i] + [ticks[i]];
    RunCyclesSnoc(prev, ticks[..i], ticks[i]);
    var whole := RunCycles(prev, ticks).fired;
    assert whole[..i + 1][i] == whole[i];
  }

  /** The loop the timer amounts to: one cycle per fetch result, in order. */
  method Monitor(prev: Option<Snapshot>, fetches: seq<Option<Snapshot>>)
    returns (store: Option<Snapshot>, fired: seq<bool>, sent: seq<string>)
    ensures store == PrevAt(prev, fetches, |fetches|)
    ensures |fired| == |fetches|
    ensures forall i :: 0 <= i < |fetches| ==> fired[i] == Detect(PrevAt(prev, fetches, i), fetches[i])
    ensures |sent| == CountTrue(fired)
    ensures forall i :: 0 <= i < |sent| ==> sent[i] == AlertMessage
  {
    store, fired, sent := prev, [], [];
    var i := 0;
    while i < |fetches|
      invariant 0 <= i <= |fetches|
      invariant store == PrevAt(prev, fetches, i)
      invariant |fired| == i
      invariant forall j :: 0 <= j < i ==> fired[j] == Detect(PrevAt(prev, fetches, j), fetches[j])
      invariant |sent| == CountTrue(fired)
      invariant forall j :: 0 <= j < |sent| ==> sent[j] == AlertMessage
    {
      var s := Step(store, fetches[i]);
      var alert := |s.sent| == 1;
      assert alert == Detect(PrevAt(prev, fetches, i), fetches[i]);
      CountTrueAppend(fired, alert);
      fired := fired + [alert];
      sent := sent + s.sent;
      store := s.store;
      i := i + 1;
    }
  }
}
