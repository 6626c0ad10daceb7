/** The CPU sampler: one overall utilisation percentage per tick. */
module Cpu {
  import opened Wrappers
  import opened SamplerLoop

  /** The sample published on the CPU channel; `percent` is a float64 in the
      source, compared and copied only, so an ordered `real` stands for it. */
  datatype CpuStat = CpuStat(percent: real)

  /** The answer of `cpu.Percent(0, false)`: a slice of percentages (one entry,
      the whole machine, when it succeeds) or an error. */
  type PercentQuery = Result<seq<real>>

  /** The sample built from one query: the first percentage when there is one,
      the zero value otherwise. */
  function Sample(q: PercentQuery): (s: CpuStat)
  {
    if q.Ok? && |q.value| > 0 then CpuStat(q.value[0]) else CpuStat(0.0)
  }

  /** One iteration of the loop; the CPU sampler keeps no state between ticks. */
  function Step(u: (), q: PercentQuery): (CpuStat, ())
  {
    (Sample(q), u)
  }

  /** `StartCpuMonitor`: sample `i` comes from the `i`-th query alone, the first
      percentage when the query succeeded with one and 0 otherwise, so a failed
      tick leaves no trace on the next. */
  method StartCpuMonitor(query: nat -> PercentQuery, events: seq<Event>)
    returns (sent: seq<CpuStat>, closed: bool)
    ensures sent == Run(Always(Step), (), query, events).sent
    ensures closed == Run(Always(Step), (), query, events).closed
    ensures |sent| == Run(Always(Step), (), query, events).completed
    ensures forall i :: 0 <= i < |sent| && query(i).Ok? && |query(i).value| > 0 ==>
              sent[i].percent == query(i).value[0]
    ensures forall i :: 0 <= i < |sent| && !(query(i).Ok? && |query(i).value| > 0) ==>
              sent[i] == CpuStat(0.0)
    ensures closed <==> Cancel in events
  {
    var completed;
    sent, completed, closed := RunSampler(Always(Step), (), query, events);
    RunProtocol(Always(Step), (), query, events, []);
    AlwaysOffers(Step, (), query, completed);
  }
}
