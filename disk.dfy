/** The disk sampler: usage of one filesystem path, fixed when it starts. */
module Disk {
  import opened GoTypes
  import opened Wrappers
  import opened SamplerLoop

  /** The fields of the library's usage record that matter here. Its own `path`
      is what the library reports, not what the sample carries. */
  datatype UsageStat = UsageStat(path: string, total: U64, free: U64, used: U64, usedPercent: real)

  datatype DiskStat = DiskStat(path: string, total: U64, used: U64, usedPercent: real)

  const ZeroDiskStat := DiskStat("", 0, 0, 0.0)

  /** The query `disk.Usage(path)` answers on each iteration, as a function of
      the path asked about and the iteration number. */
  type UsageSource = (string, nat) -> Result<UsageStat>

  function Sample(path: string, q: Result<UsageStat>): (s: DiskStat)
  {
    match q
    case Ok(u) => DiskStat(path, u.total, u.used, u.usedPercent)
    case Err => ZeroDiskStat
  }

  function Step(path: string): ((), Result<UsageStat>) -> (DiskStat, ())
  {
    (u: (), q: Result<UsageStat>) => (Sample(path, q), u)
  }

  /** Every iteration asks about the same configured path. */
  function Queries(usage: UsageSource, path: string): nat -> Result<UsageStat>
  {
    (i: nat) => usage(path, i)
  }

  /** `StartDiskMonitor`: sample `i` describes the configured `path` as queried
      on iteration `i`; on success it carries that path and copies the three
      figures, on failure it is entirely zero, with an empty path. */
  method StartDiskMonitor(path: string, usage: UsageSource, events: seq<Event>)
    returns (sent: seq<DiskStat>, closed: bool)
    ensures sent == Run(Always(Step(path)), (), Queries(usage, path), events).sent
    ensures closed == Run(Always(Step(path)), (), Queries(usage, path), events).closed
    ensures |sent| == Run(Always(Step(path)), (), Queries(usage, path), events).completed
    ensures forall i :: 0 <= i < |sent| && usage(path, i).Ok? ==>
              sent[i].path == path && sent[i].total == usage(path, i).value.total
              && sent[i].used == usage(path, i).value.used
              && sent[i].usedPercent == usage(path, i).value.usedPercent
    ensures forall i :: 0 <= i < |sent| && usage(path, i).Err? ==> sent[i] == ZeroDiskStat
    ensures closed <==> Cancel in events
  {
    var completed;
    sent, completed, closed := RunSampler(Always(Step(path)), (), Queries(usage, path), events);
    RunProtocol(Always(Step(path)), (), Queries(usage, path), events, []);
    AlwaysOffers(Step(path), (), Queries(usage, path), completed);
  }
}
