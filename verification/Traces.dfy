/** Traces that sample every so many ticks, for an env and for an instance alike
    (runtime/src/envd/server/dispatch.rs, runtime/src/daemon/server/action_router.rs). A row
    is the tick it was taken at. */
module Traces {
  import opened Arithmetic
  import opened Common

  datatype Trace = Trace(period: nat, nextDue: nat, rows: seq<nat>)

  predicate TraceDue(trace: Option<Trace>, tick: nat) {
    trace.Some? && trace.value.nextDue <= tick
  }

  function WithRow(trace: Trace, tick: nat): Trace {
    trace.(rows := trace.rows + [tick], nextDue := SatAdd(tick, trace.period))
  }

  /** from, from + p, from + 2p, ... (n terms) */
  function Every(from: nat, p: nat, n: nat): seq<nat>
    decreases n
  {
    if n == 0 then [] else [from] + Every(from + p, p, n - 1)
  }

  lemma {:induction false} EverySnoc(from: nat, p: nat, n: nat)
    ensures Every(from, p, n + 1) == Every(from, p, n) + [from + n * p]
    ensures n > 0 ==> Every(from, p, n)[0] == from
    decreases n
  {
    if n > 0 {
      EverySnoc(from + p, p, n - 1);
      OneMore(p, n - 1);
    }
  }

  /** A period is rounded up to whole ticks, by less than one tick. */
  lemma PeriodAccuracy(tickUs: nat, requestedUs: nat)
    requires tickUs > 0 && requestedUs > 0
    ensures var p := DivCeil(requestedUs, tickUs); p >= 1 && requestedUs <= p * tickUs < requestedUs + tickUs
  {
    var n := requestedUs + tickUs - 1;
    assert n == n / tickUs * tickUs + n % tickUs;
  }
}
