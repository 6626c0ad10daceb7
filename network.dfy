/** The network sampler and its rate calculator.

    The goroutine keeps the counters it read last (`prevSent`, `prevRecv`) from
    one iteration to the next; they are seeded by a read that is never published. A
    published rate is `(cur - prev) / interval.Seconds()` in floating point; the
    model keeps its exact numerator, the `uint64` difference, and leaves the
    division to `BytesPerSec`. */
module Network {
  import opened GoTypes
  import opened Wrappers
  import opened SamplerLoop

  /** One entry of `net.IOCounters`: per interface, or a single aggregate entry. */
  datatype IOCountersStat = IOCountersStat(name: string, bytesSent: U64, bytesRecv: U64)

  /** A pair of cumulative byte counters: the current reading or the previous one. */
  datatype Counters = Counters(sent: U64, recv: U64)

  /** The published sample. `sentDelta` and `recvDelta` are the numerators of
      `BytesSentPerSec` and `BytesRecvPerSec`. */
  datatype NetStat = NetStat(sentDelta: U64, recvDelta: U64, totalBytesSent: U64, totalBytesRecv: U64)

  const ZeroNetStat := NetStat(0, 0, 0, 0)

  /** The per-second rate the source publishes, idealised as real division. */
  function BytesPerSec(delta: U64, seconds: real): (rate: real)
    requires seconds > 0.0
    ensures rate >= 0.0
    ensures rate * seconds == delta as real
  {
    delta as real / seconds
  }

  /** The index of the first counter entry named `name`, if any. */
  function FirstNamed(counters: seq<IOCountersStat>, name: string): (r: Option<nat>)
    ensures r.None? ==> forall i :: 0 <= i < |counters| ==> counters[i].name != name
    ensures r.Some? ==> r.value < |counters| && counters[r.value].name == name
    ensures r.Some? ==> forall j :: 0 <= j < r.value ==> counters[j].name != name
    decreases |counters|
  {
    if counters == [] then None
    else if counters[0].name == name then Some(0)
    else match FirstNamed(counters[1..], name)
      case None => None
      case Some(i) => Some(i + 1)
  }

  /** What one successful answer yields, stated entry by entry: with a
      configured name, the counters of the first entry carrying it, or zeros
      when none does; without one, the counters of the first entry, or zeros
      when the answer is empty. */
  predicate ReadsCounters(ifaceName: string, counters: seq<IOCountersStat>, cur: Counters)
  {
    if ifaceName != "" then
      if exists i :: 0 <= i < |counters| && counters[i].name == ifaceName then
        exists i :: 0 <= i < |counters| && counters[i].name == ifaceName
                    && (forall j :: 0 <= j < i ==> counters[j].name != ifaceName)
                    && cur == Counters(counters[i].bytesSent, counters[i].bytesRecv)
      else cur == Counters(0, 0)
    else if |counters| > 0 then cur == Counters(counters[0].bytesSent, counters[0].bytesRecv)
    else cur == Counters(0, 0)
  }

  /** The counters one successful query yields, found with `FirstNamed`. */
  function CurrentCounters(ifaceName: string, counters: seq<IOCountersStat>): (cur: Counters)
    ensures ReadsCounters(ifaceName, counters, cur)
  {
    if ifaceName != "" then
      match FirstNamed(counters, ifaceName)
      case Some(i) => Counters(counters[i].bytesSent, counters[i].bytesRecv)
      case None => Counters(0, 0)
    else if |counters| > 0 then Counters(counters[0].bytesSent, counters[0].bytesRecv)
    else Counters(0, 0)
  }

  /** The `for ... range counters` search with `break` on the configured name. */
  method LookupCounters(counters: seq<IOCountersStat>, ifaceName: string)
    returns (cur: Counters, found: bool)
    ensures found <==> exists i :: 0 <= i < |counters| && counters[i].name == ifaceName
    ensures found ==> exists i :: 0 <= i < |counters| && counters[i].name == ifaceName
                        && cur == Counters(counters[i].bytesSent, counters[i].bytesRecv)
                        && forall j :: 0 <= j < i ==> counters[j].name != ifaceName
    ensures !found ==> cur == Counters(0, 0)
    ensures ifaceName != "" ==> cur == CurrentCounters(ifaceName, counters)
  {
    cur, found := Counters(0, 0), false;
    var i := 0;
    while i < |counters|
      invariant 0 <= i <= |counters|
      invariant forall j :: 0 <= j < i ==> counters[j].name != ifaceName
    {
      if counters[i].name == ifaceName {
        cur, found := Counters(counters[i].bytesSent, counters[i].bytesRecv), true;
        break;
      }
      i := i + 1;
    }
  }

  /** The unpublished first read: it seeds the previous counters with what
      the answer yields, and they stay 0 when it fails, when the configured
      interface is absent or when the answer is empty. */
  function InitialCounters(ifaceName: string, q: Result<seq<IOCountersStat>>): (prev: Counters)
    ensures q.Err? ==> prev == Counters(0, 0)
    ensures q.Ok? ==> ReadsCounters(ifaceName, q.value, prev)
  {
    if q.Ok? then CurrentCounters(ifaceName, q.value) else Counters(0, 0)
  }

  /** One iteration of the rate calculator: the sample published and the previous
      counters carried to the next iteration. */
  function RateStep(ifaceName: string, prev: Counters, q: Result<seq<IOCountersStat>>): (r: (NetStat, Counters))
    // a failed query publishes zeros and keeps the previous counters
    ensures q.Err? ==> r.0 == ZeroNetStat && r.1 == prev
    // a successful one publishes the current totals and remembers them
    ensures q.Ok? ==> r.1 == CurrentCounters(ifaceName, q.value)
                      && r.0.totalBytesSent == r.1.sent && r.0.totalBytesRecv == r.1.recv
    // a rate is nonzero only if the previous counter was
    ensures r.0.sentDelta != 0 ==> prev.sent != 0
    ensures r.0.recvDelta != 0 ==> prev.recv != 0
    // otherwise it is the uint64 difference: adding it to the previous counter
    // gives the current one modulo 2^64
    ensures q.Ok? && prev.sent != 0 ==> (prev.sent + r.0.sentDelta) % TWO_TO_64 == r.1.sent
    ensures q.Ok? && prev.recv != 0 ==> (prev.recv + r.0.recvDelta) % TWO_TO_64 == r.1.recv
  {
    match q
    case Err => (ZeroNetStat, prev)
    case Ok(counters) =>
      var cur := CurrentCounters(ifaceName, counters);
      var sentDelta := if prev.sent > 0 then Sub64(cur.sent, prev.sent) else 0;
      var recvDelta := if prev.recv > 0 then Sub64(cur.recv, prev.recv) else 0;
      (NetStat(sentDelta, recvDelta, cur.sent, cur.recv), cur)
  }

  function Step(ifaceName: string): (Counters, Result<seq<IOCountersStat>>) -> (NetStat, Counters)
  {
    (prev: Counters, q: Result<seq<IOCountersStat>>) => RateStep(ifaceName, prev, q)
  }

  /** The previous counters at the start of iteration `i`. */
  function PrevAt(ifaceName: string, initial: Result<seq<IOCountersStat>>,
                  query: nat -> Result<seq<IOCountersStat>>, i: nat): Counters
  {
    StateAfter(Always(Step(ifaceName)), InitialCounters(ifaceName, initial), query, i)
  }

  /** `StartNetworkMonitor`: after the unpublished `initial` read, sample `i` is
      the rate step computed from the `i`-th query and the counters the earlier
      iterations left. */
  method StartNetworkMonitor(ifaceName: string, initial: Result<seq<IOCountersStat>>,
                             query: nat -> Result<seq<IOCountersStat>>, events: seq<Event>)
    returns (sent: seq<NetStat>, closed: bool)
    ensures sent == Run(Always(Step(ifaceName)), InitialCounters(ifaceName, initial), query, events).sent
    ensures closed == Run(Always(Step(ifaceName)), InitialCounters(ifaceName, initial), query, events).closed
    ensures |sent| == Run(Always(Step(ifaceName)), InitialCounters(ifaceName, initial), query, events).completed
    ensures forall i :: 0 <= i < |sent| ==>
              sent[i] == RateStep(ifaceName, PrevAt(ifaceName, initial, query, i), query(i)).0
    ensures closed <==> Cancel in events
  {
    var completed;
    var init := InitialCounters(ifaceName, initial);
    sent, completed, closed := RunSampler(Always(Step(ifaceName)), init, query, events);
    RunProtocol(Always(Step(ifaceName)), init, query, events, []);
    AlwaysOffers(Step(ifaceName), init, query, completed);
  }

  /** A decreasing counter is not clamped: the `uint64` difference wraps, so the
      numerator is huge rather than negative. */
  lemma DecreaseWraps(ifaceName: string, prev: Counters, counters: seq<IOCountersStat>)
    requires CurrentCounters(ifaceName, counters).sent < prev.sent
    ensures RateStep(ifaceName, prev, Ok(counters)).0.sentDelta
         == TWO_TO_64 - (prev.sent - CurrentCounters(ifaceName, counters).sent)
    ensures RateStep(ifaceName, prev, Ok(counters)).0.sentDelta >= TWO_TO_64 - prev.sent
  {
  }

  /** A configured interface missing from a successful answer yields zero totals
      and resets the previous counters to 0; the rate of that iteration is the
      wrapped difference `0 - prev` (all zeros when both previous counters
      were 0), and the next iteration's rate is 0 again. */
  lemma MissingInterface(ifaceName: string, prev: Counters, counters: seq<IOCountersStat>,
                         next: Result<seq<IOCountersStat>>)
    requires ifaceName != ""
    requires forall i :: 0 <= i < |counters| ==> counters[i].name != ifaceName
    ensures RateStep(ifaceName, prev, Ok(counters)).1 == Counters(0, 0)
    ensures RateStep(ifaceName, prev, Ok(counters)).0.totalBytesSent == 0
    ensures RateStep(ifaceName, prev, Ok(counters)).0.totalBytesRecv == 0
    ensures prev.sent != 0 ==> RateStep(ifaceName, prev, Ok(counters)).0.sentDelta == TWO_TO_64 - prev.sent
    ensures prev.recv != 0 ==> RateStep(ifaceName, prev, Ok(counters)).0.recvDelta == TWO_TO_64 - prev.recv
    ensures prev == Counters(0, 0) ==> RateStep(ifaceName, prev, Ok(counters)).0 == ZeroNetStat
    ensures RateStep(ifaceName, RateStep(ifaceName, prev, Ok(counters)).1, next).0.sentDelta == 0
    ensures RateStep(ifaceName, RateStep(ifaceName, prev, Ok(counters)).1, next).0.recvDelta == 0
  {
    assert FirstNamed(counters, ifaceName).None?;
  }

  /** Failed queries leave the previous counters alone, so the first success
      after an outage measures the difference across the whole outage. */
  lemma {:induction false} OutageKeepsPrevious(ifaceName: string, initial: Result<seq<IOCountersStat>>,
                                               query: nat -> Result<seq<IOCountersStat>>, k: nat, m: nat)
    requires k <= m
    requires forall j :: k <= j < m ==> query(j).Err?
    ensures PrevAt(ifaceName, initial, query, m) == PrevAt(ifaceName, initial, query, k)
    ensures RateStep(ifaceName, PrevAt(ifaceName, initial, query, m), query(m))
         == RateStep(ifaceName, PrevAt(ifaceName, initial, query, k), query(m))
    decreases m - k
  {
    if k < m {
      OutageKeepsPrevious(ifaceName, initial, query, k, m - 1);
      var before := PrevAt(ifaceName, initial, query, m - 1);
      assert Always(Step(ifaceName))(before, query(m - 1)).1 == RateStep(ifaceName, before, query(m - 1)).1;
    }
  }

  /** When the initial read fails, the first published rates are 0 rather than
      the whole counter. */
  lemma ColdStart(ifaceName: string, initial: Result<seq<IOCountersStat>>,
                  query: nat -> Result<seq<IOCountersStat>>)
    requires initial.Err?
    ensures RateStep(ifaceName, PrevAt(ifaceName, initial, query, 0), query(0)).0.sentDelta == 0
    ensures RateStep(ifaceName, PrevAt(ifaceName, initial, query, 0), query(0)).0.recvDelta == 0
  {
  }

  /** When the initial read succeeds and seeds a nonzero counter, the first
      published numerator is the `uint64` difference between iteration 0's
      read, taken right after the seed, and that seed. */
  lemma WarmStart(ifaceName: string, initial: Result<seq<IOCountersStat>>,
                  query: nat -> Result<seq<IOCountersStat>>)
    requires initial.Ok? && query(0).Ok?
    ensures var seed := InitialCounters(ifaceName, initial);
      var cur := CurrentCounters(ifaceName, query(0).value);
      var s := RateStep(ifaceName, PrevAt(ifaceName, initial, query, 0), query(0)).0;
      (seed.sent != 0 ==> s.sentDelta == Sub64(cur.sent, seed.sent))
      && (seed.recv != 0 ==> s.recvDelta == Sub64(cur.recv, seed.recv))
  {
  }

  /** The second published sample is the first whose two reads lie one
      interval apart (a tick separates iterations 0 and 1): counters
      (1000, 500) then (2000, 900) publish 1000 and 400 bytes per second over
      one second, whatever the initial read was. */
  lemma OneSecondExample(initial: Result<seq<IOCountersStat>>,
                         query: nat -> Result<seq<IOCountersStat>>)
    requires query(0) == Ok([IOCountersStat("eth0", 1000, 500)])
    requires query(1) == Ok([IOCountersStat("eth0", 2000, 900)])
    ensures var s := RateStep("eth0", PrevAt("eth0", initial, query, 1), query(1)).0;
      BytesPerSec(s.sentDelta, 1.0) == 1000.0 && BytesPerSec(s.recvDelta, 1.0) == 400.0
      && s.totalBytesSent == 2000 && s.totalBytesRecv == 900
  {
    assert FirstNamed([IOCountersStat("eth0", 1000, 500)], "eth0") == Some(0);
    assert FirstNamed([IOCountersStat("eth0", 2000, 900)], "eth0") == Some(0);
    assert PrevAt("eth0", initial, query, 1)
        == Always(Step("eth0"))(PrevAt("eth0", initial, query, 0), query(0)).1;
  }
}
