/** The process sampler: a snapshot of the process table per tick. */
module Process {
  import opened GoTypes
  import opened Wrappers
  import opened SamplerLoop

  /** The part of the library's memory record that matters here. */
  datatype MemoryInfoStat = MemoryInfoStat(rss: U64, vms: U64)

  /** One enumerated process, with the answers its three accessors give. */
  datatype ProcessHandle = ProcessHandle(pid: I32, name: Result<string>, cpuPercent: Result<real>,
                                         memoryInfo: Result<MemoryInfoStat>)

  datatype ProcessStat = ProcessStat(pid: I32, name: string, cpuPercent: real, memoryBytes: U64)

  /** All three per-process queries succeeded. */
  predicate Readable(p: ProcessHandle)
  {
    p.name.Ok? && p.cpuPercent.Ok? && p.memoryInfo.Ok?
  }

  function Entry(p: ProcessHandle): ProcessStat
    requires Readable(p)
  {
    ProcessStat(p.pid, p.name.value, p.cpuPercent.value, p.memoryInfo.value.rss)
  }

  /** The list one tick builds from an enumeration, front to back. */
  function Collected(procs: seq<ProcessHandle>): seq<ProcessStat>
  {
    if procs == [] then []
    else
      var last := procs[|procs| - 1];
      Collected(procs[..|procs| - 1]) + (if Readable(last) then [Entry(last)] else [])
  }

  /** The positions in the enumeration of the processes that were kept. */
  function KeptIndices(procs: seq<ProcessHandle>): seq<nat>
  {
    if procs == [] then []
    else
      var n := |procs| - 1;
      KeptIndices(procs[..n]) + (if Readable(procs[n]) then [n] else [])
  }

  /** Kept positions are positions of readable processes, in increasing order. */
  lemma {:induction false} KeptIndicesSound(procs: seq<ProcessHandle>)
    ensures |KeptIndices(procs)| <= |procs|
    ensures forall j :: 0 <= j < |KeptIndices(procs)| ==>
              KeptIndices(procs)[j] < |procs| && Readable(procs[KeptIndices(procs)[j]])
    ensures forall j, j' :: 0 <= j < j' < |KeptIndices(procs)| ==> KeptIndices(procs)[j] < KeptIndices(procs)[j']
  {
    if procs != [] {
      var n := |procs| - 1;
      KeptIndicesSound(procs[..n]);
      assert forall i :: 0 <= i < n ==> procs[..n][i] == procs[i];
    }
  }

  /** Every readable process is kept. */
  lemma {:induction false} KeptIndicesComplete(procs: seq<ProcessHandle>)
    ensures forall i :: 0 <= i < |procs| && Readable(procs[i]) ==> i in KeptIndices(procs)
  {
    if procs != [] {
      var n := |procs| - 1;
      var k := KeptIndices(procs[..n]);
      KeptIndicesComplete(procs[..n]);
      forall i | 0 <= i < |procs| && Readable(procs[i])
        ensures i in KeptIndices(procs)
      {
        if i < n {
          assert procs[..n][i] == procs[i];
          assert i in k;
        } else {
          assert KeptIndices(procs)[|k|] == n;
        }
      }
    }
  }

  /** Entry `j` of the list is built from the process at the `j`-th kept position. */
  lemma {:induction false} CollectedAtKept(procs: seq<ProcessHandle>)
    ensures |Collected(procs)| == |KeptIndices(procs)|
    ensures forall j :: 0 <= j < |KeptIndices(procs)| ==>
              KeptIndices(procs)[j] < |procs| && Readable(procs[KeptIndices(procs)[j]])
              && Collected(procs)[j] == Entry(procs[KeptIndices(procs)[j]])
  {
    KeptIndicesSound(procs);
    if procs != [] {
      var n := |procs| - 1;
      var init := procs[..n];
      CollectedAtKept(init);
      KeptIndicesSound(init);
      var k := KeptIndices(init);
      forall j | 0 <= j < |k|
        ensures procs[k[j]] == init[k[j]]
      {
      }
    }
  }

  /** The list is exactly the readable processes, in enumeration order: entry
      `j` is built from the process at `KeptIndices(procs)[j]`, those positions
      increase, and every readable process has one. */
  lemma CollectedSelectsReadable(procs: seq<ProcessHandle>)
    ensures |Collected(procs)| == |KeptIndices(procs)| <= |procs|
    ensures forall j :: 0 <= j < |KeptIndices(procs)| ==>
              KeptIndices(procs)[j] < |procs| && Readable(procs[KeptIndices(procs)[j]])
              && Collected(procs)[j] == Entry(procs[KeptIndices(procs)[j]])
    ensures forall j, j' :: 0 <= j < j' < |KeptIndices(procs)| ==> KeptIndices(procs)[j] < KeptIndices(procs)[j']
    ensures forall i :: 0 <= i < |procs| && Readable(procs[i]) ==> i in KeptIndices(procs)
  {
    KeptIndicesSound(procs);
    KeptIndicesComplete(procs);
    CollectedAtKept(procs);
  }

  /** When every per-process query fails for every process, the list is empty
      (and is still offered). */
  lemma {:induction false} NoneReadable(procs: seq<ProcessHandle>)
    requires forall i :: 0 <= i < |procs| ==> !Readable(procs[i])
    ensures Collected(procs) == []
  {
    if procs != [] {
      var n := |procs| - 1;
      assert forall i :: 0 <= i < n ==> procs[..n][i] == procs[i];
      NoneReadable(procs[..n]);
    }
  }

  /** The inner `for ... range procs` loop: a process whose name, CPU or memory
      query fails is skipped with `continue`. */
  method CollectStats(procs: seq<ProcessHandle>) returns (stats: seq<ProcessStat>)
    ensures stats == Collected(procs)
  {
    stats := [];
    var i := 0;
    while i < |procs|
      invariant 0 <= i <= |procs|
      invariant stats == Collected(procs[..i])
    {
      var p := procs[i];
      assert procs[..i + 1][..i] == procs[..i];
      i := i + 1;
      if p.name.Err? {
        continue;
      }
      if p.cpuPercent.Err? {
        continue;
      }
      if p.memoryInfo.Err? {
        continue;
      }
      stats := stats + [ProcessStat(p.pid, p.name.value, p.cpuPercent.value, p.memoryInfo.value.rss)];
    }
    assert procs[..i] == procs;
  }

  /** One iteration: a failed enumeration offers nothing and goes straight to
      waiting for the tick. */
  function Step(u: (), q: Result<seq<ProcessHandle>>): (Option<seq<ProcessStat>>, ())
  {
    if q.Err? then (None, u) else (Some(Collected(q.value)), u)
  }

  /** The lists the first `n` iterations offer: one per successful enumeration. */
  function Published(query: nat -> Result<seq<ProcessHandle>>, n: nat): seq<seq<ProcessStat>>
  {
    if n == 0 then []
    else Published(query, n - 1) + (if query(n - 1).Ok? then [Collected(query(n - 1).value)] else [])
  }

  lemma {:induction false} OutputsArePublished(query: nat -> Result<seq<ProcessHandle>>, n: nat)
    ensures Outputs(Step, (), query, n) == Published(query, n)
  {
    if n > 0 {
      OutputsArePublished(query, n - 1);
    }
  }

  /** `StartProcessMonitor`: the lists received are those of the successful
      enumerations among the completed iterations, in order, and no more lists
      than iterations. */
  method StartProcessMonitor(query: nat -> Result<seq<ProcessHandle>>, events: seq<Event>)
    returns (sent: seq<seq<ProcessStat>>, closed: bool)
    ensures sent == Run(Step, (), query, events).sent
    ensures closed == Run(Step, (), query, events).closed
    ensures sent == Published(query, Run(Step, (), query, events).completed)
    ensures |sent| <= Run(Step, (), query, events).completed
    ensures closed <==> Cancel in events
  {
    var completed;
    sent, completed, closed := RunSampler(Step, (), query, events);
    RunProtocol(Step, (), query, events, []);
    OutputsArePublished(query, completed);
    PublishedBound(query, completed);
  }

  lemma {:induction false} PublishedBound(query: nat -> Result<seq<ProcessHandle>>, n: nat)
    ensures |Published(query, n)| <= n
    ensures (forall i :: 0 <= i < n ==> query(i).Err?) ==> Published(query, n) == []
  {
    if n > 0 {
      PublishedBound(query, n - 1);
    }
  }
}
