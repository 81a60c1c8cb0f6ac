# Liquidity-change monitor: a Dafny model

The monitor watches one on-chain liquidity pool. Once a minute it reads the
pool's base and quote reserves. It keeps the previous reading in a single
module-level slot (`previousStatus`). When the base reserve has moved by more
than 5% since that reading, it sends the fixed message "Liquidity change alert!"
to a Telegram chat.

This project models that detection cycle (`checkLiquidityChange`) and its
one-slot store:

- `wrappers.dfy` holds `Option`, which stands for the code's `PoolStatus | null`.
- `pool.dfy` holds `Snapshot`, which is `PoolStatus` reduced to the two
  vaults' `uiAmount` values, as non-negative reals. Only the base amount is
  ever read; the quote amount is carried along.
- `detector.dfy` holds the decision rule `Detect` and its properties.
- `monitor.dfy` models the cycle at two levels:
  - `Step` is a cycle that runs to its end. The fetch is abstracted to
    "a snapshot or nothing".
  - `Cycle` adds the two ways the code can leave a cycle early: the fetch
    throws, or the Telegram send rejects.
  - `Run` and the loop `Monitor` model a sequence of completed ticks
    threading the store.
  - `RunCycles` models a sequence of ticks that may throw or have their alert
    rejected. It coincides with `Run` when every tick completes.

**Previous base of zero.** Line 59 divides by the previous base amount with no
guard. The model makes this an explicit no-alert branch (`Detect` returns
`false`). It is not a precondition: every snapshot pair is a valid input.

**Errors inside a cycle.** Only a `null` from `getPoolStatus` (the pool
account does not exist, line 37) clears the store.

- A fetch that throws at line 49 (an RPC failure, or an account that does not
  decode) leaves `checkLiquidityChange` before line 67, so the store keeps its
  snapshot.
- A rejected `sendMessage` at line 64 does the same. The store keeps the older
  snapshot, so the next tick can alert again on the same move.

`Cycle`, `FetchErrorKeepsMissingClears` and `RejectedDeliveryRealerts` state
this behaviour. "The next tick" presumes the process survives the cycle's
rejected promise; Node's unhandled-rejection policy is not modelled (see below).

## Model

| member | source | states |
|---|---|---|
| Detector.RelativeChange | src/index.ts:55-59 | the relative change is non-negative, and multiplied by the previous base it gives the absolute move of the base reserve |
| Detector.Detect | src/index.ts:54-61 | an alert is only possible when both the previous and the current snapshot are present and the previous base is non-zero |
| Detector.DetectWithoutDivision | src/index.ts:54-61 | an alert fires exactly when both snapshots are present, the previous base is positive, and the absolute base move exceeds 5% of the previous base (both directions of the iff) |
| Detector.NoAlertWithoutPrevious | src/index.ts:54 | with no previous snapshot (the first cycle) there is never an alert, whatever was fetched |
| Detector.NoAlertWithoutCurrent | src/index.ts:54 | when the fetch yields nothing (pool account missing) there is never an alert |
| Detector.NoAlertFromZeroBase | src/index.ts:59 | a previous base of zero never alerts, whatever the current amount: the unguarded division is an explicit no-alert case |
| Detector.StrictThreshold | src/index.ts:55-61 | with both snapshots present, the cycle alerts iff the previous base is positive and the current base lies strictly above 105% or strictly below 95% of it |
| Detector.ExactlyFivePercentDoesNotAlert | src/index.ts:61 | a rise or a fall of exactly 5% does not alert, because the comparison is strict |
| Detector.WorkedCases | src/index.ts:55-61 | 100 to 94 alerts; 100 to 96 and 100 to 105 do not, whatever the quote amounts |
| Detector.DirectionIrrelevant | src/index.ts:56-58 | two current amounts at the same distance from the previous base get the same decision |
| Detector.RiseAndFallAgree | src/index.ts:56-58 | a rise and a fall of the same size from the same previous base give the same decision |
| Detector.QuoteIgnored | src/index.ts:55-59 | replacing the quote amount of either snapshot never changes the decision |
| Detector.LargerMoveStillAlerts | src/index.ts:55-61 | from the same previous base, a larger move alerts whenever a smaller one does |
| Detector.ScaleInvariant | src/index.ts:55-59 | scaling both base amounts by one positive factor leaves the decision unchanged: the change is relative |
| Monitor.Step | src/index.ts:54-67 | after a completed cycle the store holds exactly the fetch result; at most one message is sent, it is "Liquidity change alert!", and one is sent iff the detector alerts |
| Monitor.StoreIsLastFetch | src/index.ts:67 | the store is overwritten by the fetch result whether or not an alert fired, and a missing pool clears it |
| Monitor.Cycle | src/index.ts:48-68 | a throwing fetch sends nothing and keeps the previous snapshot; otherwise the cycle sends what `Step` sends; it reaches the store update iff the fetch did not throw and no alert was rejected; the store is then the fetch result, and otherwise the old snapshot |
| Monitor.FetchErrorKeepsMissingClears | src/index.ts:34-67 | a throwing fetch leaves the store unchanged while a missing pool account empties it; neither sends anything |
| Monitor.RejectedDeliveryRealerts | src/index.ts:61-67 | after a rejected alert the old snapshot remains, so the same fetch on the next tick alerts again (provided the process survives the rejected promise), while after a delivered alert it stays silent |
| Monitor.Run | src/index.ts:67-70 | over a sequence of completed ticks there is one decision per tick, the final store is the last fetch result (or the starting store if there were no ticks), and one message per alert, each the fixed text |
| Monitor.RunComparesConsecutive | src/index.ts:54-67 | tick i alerts exactly when the detector alerts on fetch i-1 (or the starting store, for i = 0) against fetch i |
| Monitor.RunCharacterized | src/index.ts:54-70 | any trace with those per-tick decisions, that final store, and one fixed message per alert is the trace of `Run` |
| Monitor.FirstCycleSilent | src/index.ts:28 | starting from the empty store, the first tick never alerts |
| Monitor.AlertNeedsTwoConsecutiveFetches | src/index.ts:54-67 | an alert on tick i needs successful fetches on both tick i-1 and tick i |
| Monitor.MissingFetchResetsDetection | src/index.ts:67 | a tick that finds no pool account silences the following tick, whatever it fetches |
| Monitor.TwoTickScenario | src/index.ts:48-67 | from an empty store, fetching base 100 and then base 94 sends exactly one alert (on the second tick) and leaves base 94 in the store |
| Monitor.Monitor | src/index.ts:67-70 | the loop over ticks alerts on tick i exactly when the detector alerts on fetch i-1 (or the starting store) against fetch i; it ends with the last fetch result in the store and one fixed message per alert. By `RunCharacterized`, this is the trace of `Run` |
| Monitor.RunCycles | src/index.ts:48-70 | over ticks that may throw or have their alert rejected there is one record per tick and one fixed message per alert handed to the notifier; the final store is the starting store or the result of a fetch that did not throw |
| Monitor.RunCyclesSnoc | src/index.ts:48-70 | one more tick extends the run by exactly that tick's cycle, started from the store the earlier ticks left: same earlier records and messages, plus that cycle's |
| Monitor.RunCyclesFinalStore | src/index.ts:49-67 | after one more tick the store is that tick's fetch result if the tick reached line 67, and otherwise the store the earlier ticks left |
| Monitor.RunCyclesPrefix | src/index.ts:67-70 | later ticks never change the record of earlier ones: the first n records of a run are the records of its first n ticks |
| Monitor.RunCyclesDecision | src/index.ts:49-64 | tick i hands the alert to the notifier exactly when its fetch did not throw and the detector alerts on the store the earlier ticks left against what tick i fetched |
| Monitor.RunCyclesRefinesRun | src/index.ts:48-70 | when no fetch throws and every alert is delivered, the failure-aware run equals the run of completed cycles over what was fetched |
| Monitor.ThrowingTickKeepsStore | src/index.ts:49-67 | a tick whose fetch throws, appended to any run, leaves the final store where it was and sends nothing more |

## Left out

- Solana RPC calls (`getAccountInfo`, `getTokenAccountBalance`) and the Raydium
  pool-layout decoder (src/index.ts:34-43) are network I/O and foreign code.
  Only their outcome is modelled: a snapshot, a missing account, or a thrown
  error.
- Telegram delivery (`bot.telegram.sendMessage`) is modelled only as the message
  handed over plus whether it was delivered or rejected. `console.log` (line 63)
  logs the same text just before the send and is not modelled separately.
- Reading the configuration through dotenv and `process.env` (lines 1, 18-24)
  is process start-up and is not modelled.
- `setInterval` (line 70) is modelled as a strictly sequential run of ticks.
  Overlapping asynchronous cycles, which the code allows, are not modelled.
  Neither is what Node does with a cycle whose promise rejects (its
  unhandled-rejection policy).
- JavaScript `number` arithmetic is modelled with exact reals, so there is no
  floating-point rounding.
- The `!` on `uiAmount` (lines 57-59) is not modelled. A `null` amount would be
  coerced to 0. Amounts are assumed present and non-negative.
- Monitor.Run: covers only ticks that reach the store update at line 67. A
  last tick whose fetch throws or whose alert is rejected leaves the older
  snapshot in the store; `Monitor.RunCycles` models those ticks.
- Monitor.Monitor: like `Monitor.Run`, the loop covers only ticks that reach
  line 67; `Monitor.RunCycles` models the others.
- Monitor.RunCycles: its own contract only bounds the final store. The exact
  store and the per-tick decision under failures are stated by
  `Monitor.RunCyclesFinalStore` and `Monitor.RunCyclesDecision`.
- Detector.Detect: for a previous base of zero this model never alerts. The
  JavaScript expression evaluates to `Infinity` when the current base is
  non-zero, and that value would alert. It evaluates to `NaN` when both are
  zero, and that value would not alert. The explicit no-alert branch is the
  chosen behaviour for the unguarded division.
- Calling `Detect` twice on the same snapshots always gives the same decision.
  It is a pure function, so there is no separate lemma for this.
