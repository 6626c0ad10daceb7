/** The RAM sampler: virtual-memory totals per tick. */
module Ram {
  import opened GoTypes
  import opened Wrappers
  import opened SamplerLoop

  /** The fields of the library's virtual-memory record that matter here. */
  datatype VirtualMemoryStat = VirtualMemoryStat(total: U64, available: U64, used: U64, usedPercent: real)

  datatype RamStat = RamStat(total: U64, used: U64, usedPercent: real)

  const ZeroRamStat := RamStat(0, 0, 0.0)

  /** `s` starts as the zero value and is overwritten only when the query succeeded. */
  function Sample(q: Result<VirtualMemoryStat>): (s: RamStat)
  {
    match q
    case Ok(v) => RamStat(v.total, v.used, v.usedPercent)
    case Err => ZeroRamStat
  }

  function Step(u: (), q: Result<VirtualMemoryStat>): (RamStat, ())
  {
    (Sample(q), u)
  }

  /** `StartRamMonitor`: sample `i` copies `Total`, `Used` and `UsedPercent` of
      the `i`-th query when it succeeded and is all zeros when it failed. */
  method StartRamMonitor(query: nat -> Result<VirtualMemoryStat>, events: seq<Event>)
    returns (sent: seq<RamStat>, closed: bool)
    ensures sent == Run(Always(Step), (), query, events).sent
    ensures closed == Run(Always(Step), (), query, events).closed
    ensures |sent| == Run(Always(Step), (), query, events).completed
    ensures forall i :: 0 <= i < |sent| && query(i).Ok? ==>
              sent[i].total == query(i).value.total && sent[i].used == query(i).value.used
              && sent[i].usedPercent == query(i).value.usedPercent
    ensures forall i :: 0 <= i < |sent| && query(i).Err? ==> sent[i] == ZeroRamStat
    ensures closed <==> Cancel in events
  {
    var completed;
    sent, completed, closed := RunSampler(Always(Step), (), query, events);
    RunProtocol(Always(Step), (), query, events, []);
    AlwaysOffers(Step, (), query, completed);
  }
}
