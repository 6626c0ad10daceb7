/** The ordering of the dashboard's process table (`sortProcesses`). */
module TuiSort {
  import opened GoTypes
  import opened Process

  /** The `less` of the comparator's `switch`: by PID, by name, by CPU or by
      memory, and by CPU for any other key. */
  predicate KeyLess(sortBy: string, p: ProcessStat, q: ProcessStat)
  {
    if sortBy == "pid" then p.pid < q.pid
    else if sortBy == "name" then LexLess(p.name, q.name)
    else if sortBy == "cpu" then p.cpuPercent < q.cpuPercent
    else if sortBy == "mem" then p.memoryBytes < q.memoryBytes
    else p.cpuPercent < q.cpuPercent
  }

  /** The comparator given to `sort.Slice`: `less`, negated when `sortOrder` is -1. */
  predicate Before(sortBy: string, sortOrder: int, p: ProcessStat, q: ProcessStat)
  {
    var less := KeyLess(sortBy, p, q);
    if sortOrder == -1 then !less else less
  }

  /** `p` may stand before `q`: in descending order `p`'s key is at least `q`'s,
      otherwise at most. */
  predicate InOrder(sortBy: string, sortOrder: int, p: ProcessStat, q: ProcessStat)
  {
    if sortOrder == -1 then !KeyLess(sortBy, p, q) else !KeyLess(sortBy, q, p)
  }

  /** Non-increasing by the key when `sortOrder` is -1, non-decreasing otherwise. */
  predicate Sorted(sortBy: string, sortOrder: int, s: seq<ProcessStat>)
  {
    forall i, j :: 0 <= i < j < |s| ==> InOrder(sortBy, sortOrder, s[i], s[j])
  }

  lemma KeyIrreflexive(sortBy: string, p: ProcessStat)
    ensures !KeyLess(sortBy, p, p)
  {
    LexIrreflexive(p.name);
  }

  lemma KeyAsymmetric(sortBy: string, p: ProcessStat, q: ProcessStat)
    requires KeyLess(sortBy, p, q)
    ensures !KeyLess(sortBy, q, p)
  {
    if sortBy == "name" {
      LexAsymmetric(p.name, q.name);
    }
  }

  /** Keys are totally preordered: "not less than" is transitive. */
  lemma KeyNotLessTransitive(sortBy: string, p: ProcessStat, q: ProcessStat, r: ProcessStat)
    requires !KeyLess(sortBy, p, q) && !KeyLess(sortBy, q, r)
    ensures !KeyLess(sortBy, p, r)
  {
    if sortBy == "name" {
      LexTotal(p.name, q.name);
      LexTotal(q.name, r.name);
      if LexLess(p.name, r.name) {
        if LexLess(q.name, p.name) {
          LexTransitive(q.name, p.name, r.name);
          if LexLess(r.name, q.name) {
            LexAsymmetric(q.name, r.name);
          }
        } else if LexLess(r.name, q.name) {
          LexTransitive(r.name, q.name, p.name);
          LexAsymmetric(p.name, r.name);
        } else {
          LexIrreflexive(p.name);
        }
      }
    }
  }

  lemma InOrderTransitive(sortBy: string, sortOrder: int, p: ProcessStat, q: ProcessStat, r: ProcessStat)
    requires InOrder(sortBy, sortOrder, p, q) && InOrder(sortBy, sortOrder, q, r)
    ensures InOrder(sortBy, sortOrder, p, r)
  {
    if sortOrder == -1 {
      KeyNotLessTransitive(sortBy, p, q, r);
    } else {
      KeyNotLessTransitive(sortBy, r, q, p);
    }
  }

  /** Whatever the comparator answers for two entries, placing them in the
      order it chooses respects the key. */
  lemma BeforeInOrder(sortBy: string, sortOrder: int, p: ProcessStat, q: ProcessStat)
    ensures Before(sortBy, sortOrder, p, q) ==> InOrder(sortBy, sortOrder, p, q)
    ensures !Before(sortBy, sortOrder, p, q) ==> InOrder(sortBy, sortOrder, q, p)
  {
    if KeyLess(sortBy, p, q) {
      KeyAsymmetric(sortBy, p, q);
    }
  }

  /** One pass of insertion: `x` moves left past every entry the comparator
      puts after it. */
  function Insert(sortBy: string, sortOrder: int, s: seq<ProcessStat>, x: ProcessStat): seq<ProcessStat>
  {
    if s == [] then [x]
    else
      var n := |s| - 1;
      if Before(sortBy, sortOrder, x, s[n]) then Insert(sortBy, sortOrder, s[..n], x) + [s[n]]
      else s + [x]
  }

  lemma {:induction false} InsertPermutes(sortBy: string, sortOrder: int, s: seq<ProcessStat>, x: ProcessStat)
    ensures multiset(Insert(sortBy, sortOrder, s, x)) == multiset(s) + multiset{x}
  {
    if s != [] {
      var n := |s| - 1;
      assert s == s[..n] + [s[n]];
      InsertPermutes(sortBy, sortOrder, s[..n], x);
    }
  }

  /** Every entry of a sorted sequence may precede its last entry. */
  lemma PrecedesLast(sortBy: string, sortOrder: int, s: seq<ProcessStat>, y: ProcessStat)
    requires Sorted(sortBy, sortOrder, s + [y])
    ensures forall i :: 0 <= i < |s| ==> InOrder(sortBy, sortOrder, s[i], y)
  {
    forall i | 0 <= i < |s|
      ensures InOrder(sortBy, sortOrder, s[i], y)
    {
      assert (s + [y])[i] == s[i] && (s + [y])[|s|] == y;
    }
  }

  /** Appending an entry that every entry may precede keeps a sequence sorted. */
  lemma AppendSorted(sortBy: string, sortOrder: int, s: seq<ProcessStat>, y: ProcessStat)
    requires Sorted(sortBy, sortOrder, s)
    requires forall i :: 0 <= i < |s| ==> InOrder(sortBy, sortOrder, s[i], y)
    ensures Sorted(sortBy, sortOrder, s + [y])
  {
    var r := s + [y];
    forall i, j | 0 <= i < j < |r|
      ensures InOrder(sortBy, sortOrder, r[i], r[j])
    {
      if j < |s| {
        assert r[i] == s[i] && r[j] == s[j];
      } else {
        assert r[i] == s[i] && r[j] == y;
      }
    }
  }

  lemma {:induction false} InsertSorted(sortBy: string, sortOrder: int, s: seq<ProcessStat>, x: ProcessStat)
    requires Sorted(sortBy, sortOrder, s)
    ensures Sorted(sortBy, sortOrder, Insert(sortBy, sortOrder, s, x))
  {
    if s != [] {
      var n := |s| - 1;
      var last := s[n];
      var init := s[..n];
      assert s == init + [last];
      PrecedesLast(sortBy, sortOrder, init, last);
      BeforeInOrder(sortBy, sortOrder, x, last);
      if Before(sortBy, sortOrder, x, last) {
        assert Sorted(sortBy, sortOrder, init) by {
          forall i, j | 0 <= i < j < |init|
            ensures InOrder(sortBy, sortOrder, init[i], init[j])
          {
            assert init[i] == s[i] && init[j] == s[j];
          }
        }
        InsertSorted(sortBy, sortOrder, init, x);
        InsertPermutes(sortBy, sortOrder, init, x);
        var r' := Insert(sortBy, sortOrder, init, x);
        forall i | 0 <= i < |r'|
          ensures InOrder(sortBy, sortOrder, r'[i], last)
        {
          assert r'[i] in multiset(r');
          if r'[i] != x {
            assert r'[i] in multiset(init);
          }
        }
        AppendSorted(sortBy, sortOrder, r', last);
      } else {
        forall i | 0 <= i < |s|
          ensures InOrder(sortBy, sortOrder, s[i], x)
        {
          if i < n {
            InOrderTransitive(sortBy, sortOrder, s[i], last, x);
          }
        }
        AppendSorted(sortBy, sortOrder, s, x);
      }
    }
  }

  /** The table `sortProcesses` leaves. (Go's `sort.Slice` is not this insertion
      sort; the two agree on what `SortedProcessesCorrect` states, not on the
      order of entries with equal keys.) */
  function SortedProcesses(sortBy: string, sortOrder: int, s: seq<ProcessStat>): seq<ProcessStat>
  {
    if s == [] then []
    else
      var n := |s| - 1;
      Insert(sortBy, sortOrder, SortedProcesses(sortBy, sortOrder, s[..n]), s[n])
  }

  /** The sorted table is a permutation of the input, ordered by the selected
      key in the selected direction. */
  lemma {:induction false} SortedProcessesCorrect(sortBy: string, sortOrder: int, s: seq<ProcessStat>)
    ensures multiset(SortedProcesses(sortBy, sortOrder, s)) == multiset(s)
    ensures Sorted(sortBy, sortOrder, SortedProcesses(sortBy, sortOrder, s))
  {
    if s != [] {
      var n := |s| - 1;
      assert s == s[..n] + [s[n]];
      var prefix := SortedProcesses(sortBy, sortOrder, s[..n]);
      SortedProcessesCorrect(sortBy, sortOrder, s[..n]);
      InsertSorted(sortBy, sortOrder, prefix, s[n]);
      InsertPermutes(sortBy, sortOrder, prefix, s[n]);
    }
  }

  lemma InsertPastLast(sortBy: string, sortOrder: int, s: seq<ProcessStat>, j: nat, x: ProcessStat)
    requires 0 < j <= |s| && Before(sortBy, sortOrder, x, s[j - 1])
    ensures Insert(sortBy, sortOrder, s[..j], x) == Insert(sortBy, sortOrder, s[..j - 1], x) + [s[j - 1]]
  {
    assert s[..j][..j - 1] == s[..j - 1];
  }

  /** The array during the insertion of `x`: the first `j` sorted entries,
      `x`, the other sorted entries, and the untouched rest. */
  function Arrangement<T>(s: seq<T>, j: nat, x: T, rest: seq<T>): seq<T>
    requires j <= |s|
  {
    s[..j] + [x] + s[j..] + rest
  }

  lemma ArrangementAt<T>(s: seq<T>, j: nat, x: T, rest: seq<T>)
    requires 0 < j <= |s|
    ensures |Arrangement(s, j, x, rest)| == |s| + 1 + |rest|
    ensures Arrangement(s, j, x, rest)[j - 1] == s[j - 1]
    ensures Arrangement(s, j, x, rest)[j] == x
  {
  }

  /** Swapping `x` with its left neighbour `s[j - 1]`. */
  lemma SwapLeft<T>(s: seq<T>, j: nat, x: T, rest: seq<T>)
    requires 0 < j <= |s|
    ensures Arrangement(s, j, x, rest)[j - 1 := x][j := s[j - 1]] == Arrangement(s, j - 1, x, rest)
  {
    var l := Arrangement(s, j, x, rest)[j - 1 := x][j := s[j - 1]];
    var r := Arrangement(s, j - 1, x, rest);
    assert |l| == |r|;
    forall k | 0 <= k < |l|
      ensures l[k] == r[k]
    {
    }
  }

  lemma Shape<T>(s: seq<T>, j: nat, x: T, rest: seq<T>)
    requires j <= |s|
    ensures Arrangement(s, j, x, rest)[..|s| + 1] == s[..j] + [x] + s[j..]
    ensures Arrangement(s, j, x, rest)[|s| + 1..] == rest
  {
  }

  lemma Start<T>(a: seq<T>, i: nat)
    requires i < |a|
    ensures a == Arrangement(a[..i], i, a[i], a[i + 1..])
  {
    assert a[..i][..i] == a[..i] && a[..i][i..] == [];
    assert a == a[..i] + [a[i]] + a[i + 1..];
  }

  /** One swap of the insertion keeps the array an arrangement of the sorted
      prefix around `x`, and keeps what is left to insert equal to `Insert`. */
  lemma SwapStep(sortBy: string, sortOrder: int, done: seq<ProcessStat>, j: nat, x: ProcessStat,
                 rest: seq<ProcessStat>)
    requires 0 < j <= |done| && Before(sortBy, sortOrder, x, done[j - 1])
    requires Insert(sortBy, sortOrder, done, x) == Insert(sortBy, sortOrder, done[..j], x) + done[j..]
    ensures Insert(sortBy, sortOrder, done, x) == Insert(sortBy, sortOrder, done[..j - 1], x) + done[j - 1..]
    ensures Arrangement(done, j, x, rest)[j - 1 := x][j := done[j - 1]] == Arrangement(done, j - 1, x, rest)
  {
    InsertPastLast(sortBy, sortOrder, done, j, x);
    assert done[j - 1..] == [done[j - 1]] + done[j..];
    SwapLeft(done, j, x, rest);
  }

  /** When the comparator stops `x`, the arranged prefix is the insertion. */
  lemma InsertionDone(sortBy: string, sortOrder: int, done: seq<ProcessStat>, j: nat, x: ProcessStat,
                      rest: seq<ProcessStat>)
    requires j <= |done| && (j == 0 || !Before(sortBy, sortOrder, x, done[j - 1]))
    requires Insert(sortBy, sortOrder, done, x) == Insert(sortBy, sortOrder, done[..j], x) + done[j..]
    ensures Arrangement(done, j, x, rest)[..|done| + 1] == Insert(sortBy, sortOrder, done, x)
    ensures Arrangement(done, j, x, rest)[|done| + 1..] == rest
  {
    if j == 0 {
      assert done[..j] == [];
    } else {
      assert done[..j][..j - 1] == done[..j - 1];
    }
    Shape(done, j, x, rest);
  }

  /** Moves `a[i]` left into the sorted prefix `a[..i]`, swapping it with each
      neighbour the comparator puts after it. */
  method InsertAt(a: array<ProcessStat>, i: nat, sortBy: string, sortOrder: int)
    requires i < a.Length
    modifies a
    ensures a[..i + 1] == Insert(sortBy, sortOrder, old(a[..i]), old(a[i]))
    ensures a[i + 1..] == old(a[i + 1..])
  {
    ghost var done := a[..i];
    ghost var rest := a[i + 1..];
    var x := a[i];
    var j := i;
    Start(a[..], i);
    assert done[..j] == done && done[j..] == [];
    while j > 0 && Before(sortBy, sortOrder, x, a[j - 1])
      invariant 0 <= j <= i
      invariant a[..] == Arrangement(done, j, x, rest)
      invariant Insert(sortBy, sortOrder, done, x) == Insert(sortBy, sortOrder, done[..j], x) + done[j..]
    {
      ArrangementAt(done, j, x, rest);
      SwapStep(sortBy, sortOrder, done, j, x, rest);
      ghost var pre := a[..];
      a[j - 1], a[j] := a[j], a[j - 1];
      assert a[..] == pre[j - 1 := x][j := done[j - 1]];
      j := j - 1;
    }
    if j > 0 {
      ArrangementAt(done, j, x, rest);
    }
    InsertionDone(sortBy, sortOrder, done, j, x, rest);
  }

  /** Sorting one more entry of the input inserts it into the sorted prefix. */
  lemma SortedProcessesStep(sortBy: string, sortOrder: int, input: seq<ProcessStat>, i: nat)
    requires i < |input|
    ensures SortedProcesses(sortBy, sortOrder, input[..i + 1])
         == Insert(sortBy, sortOrder, SortedProcesses(sortBy, sortOrder, input[..i]), input[i])
  {
    assert input[..i + 1][..i] == input[..i];
  }

  /** `sortProcesses`, sorting the slice's backing array in place. */
  method SortProcesses(a: array<ProcessStat>, sortBy: string, sortOrder: int)
    modifies a
    ensures a[..] == SortedProcesses(sortBy, sortOrder, old(a[..]))
  {
    ghost var input := a[..];
    var i := 0;
    while i < a.Length
      invariant 0 <= i <= a.Length
      invariant a[..i] == SortedProcesses(sortBy, sortOrder, input[..i])
      invariant a[i..] == input[i..]
    {
      ghost var tail := a[i..];
      assert a[i] == tail[0] == input[i];
      assert a[i + 1..] == tail[1..] == input[i + 1..];
      InsertAt(a, i, sortBy, sortOrder);
      SortedProcessesStep(sortBy, sortOrder, input, i);
      i := i + 1;
    }
    assert a[..] == a[..a.Length] && input == input[..a.Length];
  }
}
