/** The dashboard's state and its transition function (`MainModel`, `New`,
    `Update`) and the process rows `View` lists. The channels the model holds
    and the commands that read them are outside the model; `Update` reports
    which command it returns. */
module Tui {
  import opened Cpu
  import opened Ram
  import opened Disk
  import opened Network
  import opened Process
  import opened TuiSort

  /** A point in time, as `time.Time` is used here: stored and replaced only. */
  type Time = int

  datatype MainModel = MainModel(
    cpuStat: CpuStat,
    ramStat: RamStat,
    diskStat: DiskStat,
    netStat: NetStat,
    processes: seq<ProcessStat>,
    lastUpdate: Time,
    sortBy: string,      // "cpu", "mem", "pid" or "name"
    sortOrder: int,      // 1 ascending, -1 descending
    ifaceName: string,
    showProcesses: bool)

  /** The messages `Update` distinguishes; `OtherMsg` is any other Bubble Tea
      message (a window resize, say). A key press carries `KeyMsg.String()`. */
  datatype Msg =
    | KeyMsg(key: string)
    | CpuMsg(cpu: CpuStat)
    | RamMsg(ram: RamStat)
    | DiskMsg(disk: DiskStat)
    | NetMsg(net: NetStat)
    | ProcessMsg(procs: seq<ProcessStat>)
    | TickMsg(time: Time)
    | OtherMsg

  /** The command `Update` returns: nil, `tea.Quit`, `m.waitForActivity()` (wait
      for the next sample) or `tickCommand(time.Second)` (the next clock tick). */
  datatype Cmd = NoCmd | Quit | WaitForActivity | TickCommand

  /** The sort settings are one of the four keys and one of the two directions. */
  predicate Valid(m: MainModel)
  {
    (m.sortBy == "cpu" || m.sortBy == "mem" || m.sortBy == "pid" || m.sortBy == "name")
    && (m.sortOrder == 1 || m.sortOrder == -1)
  }

  /** `New`; `now` is the `time.Now()` it reads. */
  function New(ifaceName: string, showProcesses: bool, now: Time): (m: MainModel)
    ensures Valid(m)
    ensures m.sortBy == "cpu" && m.sortOrder == -1
    ensures m.processes == [] && m.lastUpdate == now
    ensures m.cpuStat == CpuStat(0.0) && m.ramStat == ZeroRamStat
    ensures m.diskStat == ZeroDiskStat && m.netStat == ZeroNetStat
    ensures m.ifaceName == ifaceName && m.showProcesses == showProcesses
  {
    MainModel(CpuStat(0.0), ZeroRamStat, ZeroDiskStat, ZeroNetStat, [], now, "cpu", -1,
              ifaceName, showProcesses)
  }

  /** `m.sortProcesses()` on the model's copy of the table. */
  function Resorted(m: MainModel): MainModel
  {
    m.(processes := SortedProcesses(m.sortBy, m.sortOrder, m.processes))
  }

  /** The sort key a key press selects, "" for keys that select none. */
  function KeyField(key: string): string
  {
    if key == "c" then "cpu"
    else if key == "m" then "mem"
    else if key == "p" then "pid"
    else if key == "n" then "name"
    else ""
  }

  /** The direction a newly selected key starts with: descending for CPU and
      memory, ascending for PID and name. */
  function DefaultOrder(field: string): int
  {
    if field == "cpu" || field == "mem" then -1 else 1
  }

  /** The shared body of the four sort keys: the current key flips the
      direction, another key is selected with its default direction; then the
      table is sorted again. */
  function SelectSort(m: MainModel, field: string): MainModel
  {
    if m.sortBy == field then Resorted(m.(sortOrder := m.sortOrder * -1))
    else Resorted(m.(sortBy := field, sortOrder := DefaultOrder(field)))
  }

  function Update(m: MainModel, msg: Msg): (MainModel, Cmd)
  {
    match msg
    case KeyMsg(key) =>
      if key == "q" || key == "ctrl+c" then (m, Quit)
      else if KeyField(key) != "" then (SelectSort(m, KeyField(key)), NoCmd)
      else (m, NoCmd)
    case CpuMsg(c) => (m.(cpuStat := c), WaitForActivity)
    case RamMsg(r) => (m.(ramStat := r), WaitForActivity)
    case DiskMsg(d) => (m.(diskStat := d), WaitForActivity)
    case NetMsg(n) => (m.(netStat := n), WaitForActivity)
    case ProcessMsg(ps) => (Resorted(m.(processes := ps)), WaitForActivity)
    case TickMsg(t) => (m.(lastUpdate := t), TickCommand)
    case OtherMsg => (m, NoCmd)
  }

  /** Every message keeps the sort settings valid. */
  lemma UpdatePreservesValid(m: MainModel, msg: Msg)
    requires Valid(m)
    ensures Valid(Update(m, msg).0)
  {
  }

  /** Pressing the key of the current sort field flips the direction, keeps the
      field and re-sorts; pressing it twice restores the direction. */
  lemma SameKeyToggles(m: MainModel, key: string)
    requires KeyField(key) != "" && m.sortBy == KeyField(key)
    ensures Update(m, KeyMsg(key)).0.sortBy == m.sortBy
    ensures Update(m, KeyMsg(key)).0.sortOrder == -m.sortOrder
    ensures Update(Update(m, KeyMsg(key)).0, KeyMsg(key)).0.sortOrder == m.sortOrder
    ensures Update(m, KeyMsg(key)).1 == NoCmd
  {
  }

  /** Pressing another sort key selects its field with its default direction:
      descending for `c` and `m`, ascending for `p` and `n`. */
  lemma OtherKeySelects(m: MainModel, key: string)
    requires KeyField(key) != "" && m.sortBy != KeyField(key)
    ensures Update(m, KeyMsg(key)).0.sortBy == KeyField(key)
    ensures key == "c" || key == "m" ==> Update(m, KeyMsg(key)).0.sortOrder == -1
    ensures key == "p" || key == "n" ==> Update(m, KeyMsg(key)).0.sortOrder == 1
  {
  }

  /** A sort key re-sorts the table under the new settings and changes nothing
      but the table and the settings. */
  lemma SortKeyResorts(m: MainModel, key: string)
    requires KeyField(key) != ""
    ensures var m' := Update(m, KeyMsg(key)).0;
      multiset(m'.processes) == multiset(m.processes)
      && Sorted(m'.sortBy, m'.sortOrder, m'.processes)
      && m' == m.(processes := m'.processes, sortBy := m'.sortBy, sortOrder := m'.sortOrder)
  {
    var field := KeyField(key);
    assert Update(m, KeyMsg(key)).0 == SelectSort(m, field);
    SelectSortResorts(m, field);
  }

  lemma SelectSortResorts(m: MainModel, field: string)
    ensures var m' := SelectSort(m, field);
      multiset(m'.processes) == multiset(m.processes)
      && Sorted(m'.sortBy, m'.sortOrder, m'.processes)
      && m' == m.(processes := m'.processes, sortBy := m'.sortBy, sortOrder := m'.sortOrder)
  {
    var settings := if m.sortBy == field then m.(sortOrder := m.sortOrder * -1)
                    else m.(sortBy := field, sortOrder := DefaultOrder(field));
    SortedProcessesCorrect(settings.sortBy, settings.sortOrder, m.processes);
  }

  /** Quitting, and keys that are not commands, leave the state as it was. */
  lemma OtherKeysKeepState(m: MainModel, key: string)
    requires KeyField(key) == ""
    ensures Update(m, KeyMsg(key)).0 == m
    ensures Update(m, KeyMsg(key)).1 == (if key == "q" || key == "ctrl+c" then Quit else NoCmd)
  {
  }

  /** A stat message overwrites its own field and nothing else, and the loop
      goes back to waiting for samples. */
  lemma StatMessagesOverwrite(m: MainModel, c: CpuStat, r: RamStat, d: DiskStat, n: NetStat)
    ensures Update(m, CpuMsg(c)) == (m.(cpuStat := c), WaitForActivity)
    ensures Update(m, RamMsg(r)) == (m.(ramStat := r), WaitForActivity)
    ensures Update(m, DiskMsg(d)) == (m.(diskStat := d), WaitForActivity)
    ensures Update(m, NetMsg(n)) == (m.(netStat := n), WaitForActivity)
  {
  }

  /** A process message replaces the table wholesale with the new list, sorted
      under the current settings; nothing else changes. */
  lemma ProcessMessageReplaces(m: MainModel, ps: seq<ProcessStat>)
    ensures var m' := Update(m, ProcessMsg(ps)).0;
      multiset(m'.processes) == multiset(ps)
      && Sorted(m.sortBy, m.sortOrder, m'.processes)
      && m' == m.(processes := m'.processes)
    ensures Update(m, ProcessMsg(ps)).1 == WaitForActivity
  {
    SortedProcessesCorrect(m.sortBy, m.sortOrder, ps);
  }

  /** A clock tick only records the time and schedules the next tick. */
  lemma TickRecordsTime(m: MainModel, t: Time)
    ensures Update(m, TickMsg(t)) == (m.(lastUpdate := t), TickCommand)
  {
  }

  /** The rows of the process list `View` draws: the first ten entries of the
      table in stored order, none when the list is hidden. */
  method VisibleRows(m: MainModel) returns (rows: seq<ProcessStat>)
    ensures !m.showProcesses ==> rows == []
    ensures m.showProcesses && |m.processes| <= 10 ==> rows == m.processes
    ensures m.showProcesses && |m.processes| > 10 ==> rows == m.processes[..10]
  {
    rows := [];
    if m.showProcesses {
      var i := 0;
      while i < |m.processes|
        invariant 0 <= i <= |m.processes| && i <= 10
        invariant rows == m.processes[..i]
      {
        if i >= 10 {
          break;
        }
        rows := rows + [m.processes[i]];
        i := i + 1;
      }
      assert i == |m.processes| ==> m.processes[..i] == m.processes;
    }
  }
}
