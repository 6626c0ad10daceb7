# BasicSystemMonitor core in Dafny

BasicSystemMonitor is a terminal resource monitor. Five sampler goroutines
(CPU, RAM, disk, network, processes) run a loop. Each iteration queries the
metrics library, turns the answer into a sample, publishes it on an unbuffered
channel and then waits for the next tick.
- The first iteration runs at once, before any tick.
- The network sampler also makes one unpublished read before its loop.
- The process sampler also queries the library once per process. It publishes
  nothing in an iteration whose enumeration fails.
A Bubble Tea model (`MainModel`) keeps the latest sample of each kind, a process
table sorted by a user-selected key and direction, and the time of the last
clock tick. It draws at most ten process rows.

This project models the sequential logic of those pieces:

- `wrappers.dfy` (`Wrappers`): `Option` and `Result`. A metrics query answers
  with a `Result`.
- `gotypes.dfy` (`GoTypes`): the Go integer types the core relies on.
  - `uint64` subtraction wraps modulo 2^64 (`Sub64`).
  - Go's `<` on strings is modelled as lexicographic order on code points
    (`LexLess`). This agrees with Go's byte-wise order on UTF-8.
- `sampler_loop.dfy` (`SamplerLoop`): the publish/wait loop shared by the five
  samplers, as a sequential state machine over a trace of the events its two
  `select`s resolve (`Consumed`, `Tick`, `Cancel`).
  - `Iterate`, `Offer` and `AwaitTick` are the specification.
  - `RunSampler` is the loop itself, proved equal to it.
  - The lemmas state the protocol:
    - the samples received are the outputs of the completed iterations, in order;
    - the channel is closed exactly when a cancellation arrives;
    - nothing happens after that.
- `cpu.dfy`, `ram.dfy`, `disk.dfy`, `network.dfy`, `process.dfy`: one module per
  sampler. Each has its sample type, its conversion from a query answer, and its
  `Start…Monitor` method.
  - The network sampler carries its previous counters from one iteration to the
    next (`RateStep`).
  - The process sampler filters the enumeration (`CollectStats`).
- `tui_sort.dfy` (`TuiSort`): the `sortProcesses` comparator.
  - Its specification is `SortedProcesses`, an insertion sort.
  - It is proved to be a permutation and sorted.
  - `SortProcesses` sorts an array in place, and is proved equal to that function.
- `tui_model.dfy` (`Tui`): `MainModel`, `New` and `Update` as pure functions
  (Go's `Update` has a value receiver and returns a modified copy), and the
  process rows `View` draws.

Two kinds of input are parameters:
- A metrics query is a function from the iteration number to the library's
  answer.
- `time.Now()` is a parameter of `New`.

The network rate is kept as its exact integer numerator, the `uint64`
difference. `BytesPerSec` idealises the division by the interval as real
division.

Four behaviours of the code are easy to miss:

- A network counter that decreases does not give a negative rate. The `uint64`
  subtraction wraps, so the numerator is `2^64 - (prev - cur)` (`Network.DecreaseWraps`).
- A configured interface that is missing from a successful answer does not
  always give an all-zero sample. The totals are zero and the previous counters
  are reset to 0. When a previous counter was nonzero, the rate of that one
  iteration is the wrapped difference `2^64 - prev`. When both were 0, as for a name that
  never existed, the sample is all zeros. The next iteration's rate is 0
  (`Network.MissingInterface`).
- The first published rate divides a back-to-back difference by a whole
  interval. The initial read and iteration 0's read run one after the other,
  with no tick between them, yet the difference is still divided by
  `interval.Seconds()` (`Network.WarmStart`). Only from the second sample on
  are the two reads one interval apart (`Network.OneSecondExample`).
- The process table is sorted with `sort.Slice`, which is not stable. Descending
  order returns `!less`, which is true for equal keys, so the order of entries
  with equal keys need not be the prior order (the descending comparator moves
  an entry past equal keys). The model claims only sortedness and permutation,
  not stability.

In the loop lemmas, "cancelled" means that one of the loop's `select`s chose
the `<-ctx.Done()` case, not that `cancel()` was called. Go picks at random
among ready cases, so a sample can still be received, or another iteration
start on a pending tick, after `cancel()`; such a run is a trace in which the
`Cancel` event comes later.

## Model

| member | source | states |
|---|---|---|
| GoTypes.Sub64 | hundler/network.go:83-88 | the `uint64` difference is `a - b` when `b <= a`, `2^64 - (b - a)` otherwise; adding `b` back gives `a` modulo 2^64 |
| GoTypes.LexIrreflexive | tui/model.go:97 | no name sorts before itself |
| GoTypes.LexTransitive | tui/model.go:97 | string order is transitive |
| GoTypes.LexTotal | tui/model.go:97 | of two different names one sorts before the other |
| GoTypes.LexAsymmetric | tui/model.go:97 | two names never sort before each other |
| SamplerLoop.RunSampler | hundler/cpu.go:24-43 | the imperative loop (query, offer or cancel, wait for a tick or cancel) produces exactly the trace the event-by-event specification gives |
| SamplerLoop.IterateClosed | hundler/cpu.go:32-43 | the loop closes its channel if and only if a cancellation arrives in the trace |
| SamplerLoop.OfferClosed | hundler/cpu.go:32-36 | from the offering `select`, the channel is closed if and only if a cancellation arrives |
| SamplerLoop.AwaitTickClosed | hundler/cpu.go:38-43 | from the tick-waiting `select`, the channel is closed if and only if a cancellation arrives |
| SamplerLoop.IterateStops | hundler/cpu.go:32-43 | once cancelled, later events change nothing: no further send, no further iteration |
| SamplerLoop.OfferStops | hundler/cpu.go:32-36 | a cancellation while offering ends the run; events after it have no effect |
| SamplerLoop.AwaitTickStops | hundler/cpu.go:38-43 | a cancellation while waiting for the tick ends the run; events after it have no effect |
| SamplerLoop.IterateOutputs | hundler/cpu.go:24-43 | the samples received from iteration `k` on continue the outputs of the first `k` iterations up to the last completed one |
| SamplerLoop.OfferOutputs | hundler/cpu.go:32-36 | a consumed offer appends that iteration's sample to what was received, and the state carries to the next iteration |
| SamplerLoop.AwaitTickOutputs | hundler/cpu.go:38-43 | waiting for a tick adds nothing to what was received; the tick starts the next iteration |
| SamplerLoop.RunProtocol | hundler/cpu.go:20-43 | a whole run: received samples are the outputs of the completed iterations in order; closed exactly when cancelled; nothing after cancellation |
| SamplerLoop.AlwaysOffers | hundler/cpu.go:24-37 | a sampler that always builds a sample offers exactly one per iteration, computed from that iteration's query in the state the earlier iterations left |
| Cpu.StartCpuMonitor | hundler/cpu.go:24-43 | one sample per completed iteration; it is the first percentage when the query succeeds with one, else 0; closed if and only if cancelled |
| Ram.StartRamMonitor | hundler/ram.go:23-42 | one sample per completed iteration; it copies total, used and used percent on success and is all zero on failure; closed if and only if cancelled |
| Disk.StartDiskMonitor | hundler/disk.go:25-43 | one sample per completed iteration for the same configured path; on success it carries that path and copies the figures, on failure it is all zero with an empty path; closed if and only if cancelled |
| Network.BytesPerSec | hundler/network.go:82-87 | the published rate is non-negative and times the interval gives back the byte difference |
| Network.FirstNamed | hundler/network.go:57-64 | finds the first entry with the configured name, and reports none only when no entry has it |
| Network.LookupCounters | hundler/network.go:57-64 | the search loop with `break` finds a match if and only if one exists, takes the first one's counters, and leaves zeros otherwise |
| Network.CurrentCounters | hundler/network.go:52-78 | a successful answer yields the first entry carrying the configured name, zeros when none does, the first entry when no name is configured, zeros when the answer is empty |
| Network.InitialCounters | hundler/network.go:29-45 | the unpublished first read seeds the previous counters with the first entry carrying the configured name (or the first entry when no name is configured); they stay 0 when the read fails, the interface is absent or the answer is empty |
| Network.WarmStart | hundler/network.go:29-45 | when the initial read succeeds and seeds a nonzero counter, the first published numerator is the `uint64` difference between iteration 0's counter, read right after the seed, and that seed |
| Network.RateStep | hundler/network.go:80-93 | a failed query publishes zeros and keeps the previous counters; a successful one publishes and remembers the current totals; a rate is nonzero only if its previous counter was, and is then the difference modulo 2^64 |
| Network.StartNetworkMonitor | hundler/network.go:26-107 | sample `i` is the rate step computed from query `i` and the counters the earlier iterations and the initial read left; closed if and only if cancelled |
| Network.DecreaseWraps | hundler/network.go:83-87 | a counter below its nonzero previous value, including one reset to 0, yields the wrapped numerator `2^64 - (prev - cur)`, not a negative one |
| Network.MissingInterface | hundler/network.go:52-92 | a configured interface absent from a successful answer gives zero totals and resets the previous counters to 0; that iteration's rate is `2^64 - prev` where `prev` was nonzero, and the sample is all zeros when both were 0; the next iteration's rate is 0 |
| Network.OutageKeepsPrevious | hundler/network.go:80-93 | a run of failed queries leaves the previous counters unchanged, so the next success's numerator spans the whole outage; the rate still divides by one interval |
| Network.ColdStart | hundler/network.go:29-45 | when the initial read fails, iteration 0's rates are 0 |
| Network.OneSecondExample | hundler/network.go:80-103 | the second published sample, whose two reads (iterations 0 and 1) a tick separates: counters (1000, 500) then (2000, 900) over a one-second interval publish 1000 and 400 bytes per second and totals 2000 and 900, whatever the initial read was |
| Process.KeptIndicesSound | hundler/process.go:41-61 | the kept processes are readable ones, at increasing positions, no more than were enumerated |
| Process.KeptIndicesComplete | hundler/process.go:41-53 | every process whose three queries all succeed is kept |
| Process.CollectedAtKept | hundler/process.go:55-60 | each entry carries the kept process's pid, name, CPU percent and RSS |
| Process.CollectedSelectsReadable | hundler/process.go:41-61 | the list is exactly the readable processes, in enumeration order, each copied field for field with RSS as memory |
| Process.NoneReadable | hundler/process.go:40-61 | when no process is readable the list is empty |
| Process.CollectStats | hundler/process.go:40-61 | the `continue`-skipping loop builds exactly that list |
| Process.OutputsArePublished | hundler/process.go:28-66 | the lists offered by the first `n` iterations are those of the successful enumerations among them, in order |
| Process.PublishedBound | hundler/process.go:29-38 | a failed enumeration offers nothing, so there are never more lists than iterations, and none when every enumeration fails |
| Process.StartProcessMonitor | hundler/process.go:28-75 | the lists received are those of the successful enumerations among the completed iterations, in order; closed if and only if cancelled |
| TuiSort.KeyIrreflexive | tui/model.go:92-104 | no entry's key is less than itself, for every sort key including the CPU fallback |
| TuiSort.KeyAsymmetric | tui/model.go:92-104 | two entries' keys are never each less than the other |
| TuiSort.KeyNotLessTransitive | tui/model.go:92-104 | "not less" is transitive, for every sort key |
| TuiSort.InOrderTransitive | tui/model.go:106-109 | the order the comparator induces, ascending or descending, is transitive |
| TuiSort.BeforeInOrder | tui/model.go:106-109 | whatever the comparator answers for two entries, one order of them is allowed |
| TuiSort.InsertPermutes | tui/model.go:91 | inserting one entry adds exactly that entry to the table's contents |
| TuiSort.InsertSorted | tui/model.go:91-110 | inserting into a sorted table keeps it sorted |
| TuiSort.SortedProcessesCorrect | tui/model.go:90-111 | the sorted table is a permutation of the old one, non-decreasing by the key when ascending, non-increasing when descending |
| TuiSort.InsertAt | tui/model.go:91 | shifting one entry left in place leaves the prefix equal to the insertion of that entry and the rest unchanged |
| TuiSort.SortProcesses | tui/model.go:90-111 | the array sorted in place equals the specification's sorted table of its old contents |
| Tui.New | tui/model.go:34-47 | a fresh model sorts by CPU descending, has zero samples, an empty table, the given interface, visibility and start time |
| Tui.UpdatePreservesValid | tui/model.go:114-174 | every message keeps the sort key among the four and the direction 1 or -1 |
| Tui.SameKeyToggles | tui/model.go:120-151 | the current sort key's key flips the direction and keeps the key; pressing it twice restores the direction |
| Tui.OtherKeySelects | tui/model.go:120-151 | another sort key selects its field, descending for `c` and `m`, ascending for `p` and `n` |
| Tui.SortKeyResorts | tui/model.go:120-151 | a sort key re-sorts the table under the new settings and changes nothing else |
| Tui.SelectSortResorts | tui/model.go:120-151 | selecting a sort field leaves a permutation of the table sorted under the new settings, all other fields unchanged |
| Tui.OtherKeysKeepState | tui/model.go:117-152 | `q` and `ctrl+c` quit and other keys do nothing, and neither changes the state |
| Tui.StatMessagesOverwrite | tui/model.go:153-164 | each stat message overwrites its own field only and waits for the next sample |
| Tui.ProcessMessageReplaces | tui/model.go:165-168 | a process message replaces the table with a permutation of the new list sorted under the current settings, changes nothing else, and waits for the next sample |
| Tui.TickRecordsTime | tui/model.go:169-171 | a tick changes only the last update time and schedules the next tick |
| Tui.VisibleRows | tui/model.go:189-198 | the rows drawn are none when the list is hidden, else the first ten entries in stored order, or all of them when there are fewer |

## Left out

- Process names are Dafny strings, so `LexLess` orders names that are valid UTF-8 only; Go's `<` compares bytes and a process name need not be valid UTF-8.
- Cancellation is the `<-ctx.Done()` case a `select` resolved, not the call to `cancel()`; the random choice Go makes among ready cases is represented only by where `Cancel` falls in the trace.
- Goroutines, channels, `select`, `time.Ticker` and `context` are not modelled as concurrency. Each sampler is a sequential loop over the events its `select`s resolve. Ticks that the ticker drops while a send is blocked are not modelled; an event the current `select` does not wait on is passed over.
- `waitForActivity`, `tickCommand`, `Init` and `tea.Batch` are not modelled. `Update` returns a symbolic command (`WaitForActivity`, `TickCommand`, `Quit` or none).
- The metrics library calls (`cpu.Percent`, `mem.VirtualMemory`, `disk.Usage`, `net.IOCounters`, `process.Processes` and the per-process name, CPU and memory queries) are parameters, modelled as `Result` answers.
- The per-interface and aggregate `net.IOCounters` calls are one query parameter; the `pernic` flag is not modelled.
- Floating point is not modelled. Percentages are exact `real` values, compared and copied only. The division by `interval.Seconds()` and the `float64(uint64)` conversion are idealised as real division in `BytesPerSec`. NaN ordering is ignored.
- TuiSort.SortProcesses: `sort.Slice` is pattern-defeating quicksort; the model sorts by insertion with the same comparator. Only sortedness and permutation are claimed as the source's behaviour, not which of several equal-key orders appears.
- The text `View` builds (`fmt` formatting, RFC1123 time, `ByteCountSI`) is not modelled; only the choice of process rows is. `ByteCountSI` is not part of this model.
- `log.Printf` calls are not modelled; they have no effect on the samples.
- `config.go` (file reading, YAML, duration parsing) and `main.go` (flags and wiring) are not part of this model.
- `time.Now()` and the tick times are parameters.
- Go slice aliasing is not modelled. The value-receiver `Update` sorts a slice that shares its backing array with the caller's copy; the model treats the table as a value.
