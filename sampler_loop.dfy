/** The loop every sampler goroutine runs, made sequential.

    Each iteration queries the metrics library once, turns the answer into at
    most one sample, offers that sample on an unbuffered channel, and then waits
    for the next tick of its ticker. Both waits are `select`s that also listen
    for the cancelled context; on cancellation the goroutine returns and its
    deferred `close(ch)` runs.

    The goroutine's view of the world is given as a trace of the events its
    `select`s resolve, in order. An event that the current `select` does not wait
    on (a tick while offering, a consumption while waiting for a tick) does not
    wake it and is passed over. A trace that runs out leaves the loop blocked:
    nothing more is sent and the channel stays open. */
module SamplerLoop {
  import opened Wrappers

  datatype Event = Consumed | Tick | Cancel

  /** What a run of the loop shows from outside: the samples that were received
      in order, how many iterations got past their offer, and whether the
      channel was closed. */
  datatype Trace<T> = Trace(sent: seq<T>, completed: nat, closed: bool)

  /** `t`, after the samples `before` were already received. */
  function Then<T>(before: seq<T>, t: Trace<T>): Trace<T>
  {
    t.(sent := before + t.sent)
  }

  /** Iteration `k` starts in sampler state `st`: query, convert, then offer the
      sample (or, when there is none to offer, go straight to waiting). */
  function Iterate<S, Q, T>(step: (S, Q) -> (Option<T>, S), query: nat -> Q,
                            st: S, k: nat, events: seq<Event>): Trace<T>
    decreases |events|, 2
  {
    var (out, st') := step(st, query(k));
    match out
    case Some(x) => Offer(step, query, st', k, x, events)
    case None => AwaitTick(step, query, st', k + 1, events)
  }

  /** The first `select` of iteration `k`: `ch <- x` or `<-ctx.Done()`. */
  function Offer<S, Q, T>(step: (S, Q) -> (Option<T>, S), query: nat -> Q,
                          st: S, k: nat, x: T, events: seq<Event>): Trace<T>
    decreases |events|, 1
  {
    if events == [] then Trace([], k, false)
    else match events[0]
      case Consumed => Then([x], AwaitTick(step, query, st, k + 1, events[1..]))
      case Tick => Offer(step, query, st, k, x, events[1..])
      case Cancel => Trace([], k, true)
  }

  /** The second `select`, after `k` iterations: `<-ticker.C` or `<-ctx.Done()`. */
  function AwaitTick<S, Q, T>(step: (S, Q) -> (Option<T>, S), query: nat -> Q,
                              st: S, k: nat, events: seq<Event>): Trace<T>
    decreases |events|, 0
  {
    if events == [] then Trace([], k, false)
    else match events[0]
      case Tick => Iterate(step, query, st, k, events[1..])
      case Consumed => AwaitTick(step, query, st, k, events[1..])
      case Cancel => Trace([], k, true)
  }

  /** The whole goroutine: the loop starts with a query, without waiting for a tick. */
  function Run<S, Q, T>(step: (S, Q) -> (Option<T>, S), init: S, query: nat -> Q,
                        events: seq<Event>): Trace<T>
  {
    Iterate(step, query, init, 0, events)
  }

  /** The sampler state after the first `n` iterations. */
  function StateAfter<S, Q, T>(step: (S, Q) -> (Option<T>, S), init: S, query: nat -> Q, n: nat): S
  {
    if n == 0 then init else step(StateAfter(step, init, query, n - 1), query(n - 1)).1
  }

  function OptionToSeq<T>(o: Option<T>): seq<T>
  {
    if o.Some? then [o.value] else []
  }

  /** The samples the first `n` iterations produce, in order. */
  function Outputs<S, Q, T>(step: (S, Q) -> (Option<T>, S), init: S, query: nat -> Q, n: nat): seq<T>
  {
    if n == 0 then []
    else Outputs(step, init, query, n - 1)
         + OptionToSeq(step(StateAfter(step, init, query, n - 1), query(n - 1)).0)
  }

  /** The goroutine as written: an endless `for` with two `select`s, returning
      (and so closing the channel) on cancellation. */
  method RunSampler<S, Q, T>(step: (S, Q) -> (Option<T>, S), init: S, query: nat -> Q,
                             events: seq<Event>)
    returns (sent: seq<T>, completed: nat, closed: bool)
    ensures Trace(sent, completed, closed) == Run(step, init, query, events)
  {
    sent, completed, closed := [], 0, false;
    var st := init;
    var i := 0;
    while true
      invariant 0 <= i <= |events|
      invariant Run(step, init, query, events) == Then(sent, Iterate(step, query, st, completed, events[i..]))
      decreases |events| - i
    {
      var (out, st') := step(st, query(completed));
      st := st';
      if out.Some? {
        // select { case ch <- s: case <-ctx.Done(): return }
        while true
          invariant 0 <= i <= |events|
          invariant Run(step, init, query, events) == Then(sent, Offer(step, query, st, completed, out.value, events[i..]))
          decreases |events| - i
        {
          if i == |events| {
            return;
          }
          var e := events[i];
          i := i + 1;
          if e == Consumed {
            sent := sent + [out.value];
            break;
          } else if e == Cancel {
            closed := true;
            return;
          }
        }
      }
      completed := completed + 1;
      // select { case <-ticker.C: continue case <-ctx.Done(): return }
      while true
        invariant 0 <= i <= |events|
        invariant Run(step, init, query, events) == Then(sent, AwaitTick(step, query, st, completed, events[i..]))
        decreases |events| - i
      {
        if i == |events| {
          return;
        }
        var e := events[i];
        i := i + 1;
        if e == Tick {
          break;
        } else if e == Cancel {
          closed := true;
          return;
        }
      }
    }
  }

  /** The channel is closed exactly when the trace holds a cancellation: both
      `select`s listen for it, so the first one ends the goroutine wherever it
      waits. */
  lemma {:induction false} IterateClosed<S, Q, T>(step: (S, Q) -> (Option<T>, S), query: nat -> Q,
                                                  st: S, k: nat, events: seq<Event>)
    ensures Iterate(step, query, st, k, events).closed <==> Cancel in events
    decreases |events|, 2
  {
    var (out, st') := step(st, query(k));
    match out
    case Some(x) => OfferClosed(step, query, st', k, x, events);
    case None => AwaitTickClosed(step, query, st', k + 1, events);
  }

  lemma {:induction false} OfferClosed<S, Q, T>(step: (S, Q) -> (Option<T>, S), query: nat -> Q,
                                                st: S, k: nat, x: T, events: seq<Event>)
    ensures Offer(step, query, st, k, x, events).closed <==> Cancel in events
    decreases |events|, 1
  {
    if events != [] {
      assert events == [events[0]] + events[1..];
      match events[0]
      case Consumed => AwaitTickClosed(step, query, st, k + 1, events[1..]);
      case Tick => OfferClosed(step, query, st, k, x, events[1..]);
      case Cancel =>
    }
  }

  lemma {:induction false} AwaitTickClosed<S, Q, T>(step: (S, Q) -> (Option<T>, S), query: nat -> Q,
                                                    st: S, k: nat, events: seq<Event>)
    ensures AwaitTick(step, query, st, k, events).closed <==> Cancel in events
    decreases |events|, 0
  {
    if events != [] {
      assert events == [events[0]] + events[1..];
      match events[0]
      case Tick => IterateClosed(step, query, st, k, events[1..]);
      case Consumed => AwaitTickClosed(step, query, st, k, events[1..]);
      case Cancel =>
    }
  }

  /** Once the goroutine has returned, later events change nothing: no further
      sample is sent and no further iteration starts. */
  lemma {:induction false} IterateStops<S, Q, T>(step: (S, Q) -> (Option<T>, S), query: nat -> Q,
                                                 st: S, k: nat, events: seq<Event>, more: seq<Event>)
    requires Iterate(step, query, st, k, events).closed
    ensures Iterate(step, query, st, k, events + more) == Iterate(step, query, st, k, events)
    decreases |events|, 2
  {
    var (out, st') := step(st, query(k));
    match out
    case Some(x) => OfferStops(step, query, st', k, x, events, more);
    case None => AwaitTickStops(step, query, st', k + 1, events, more);
  }

  lemma {:induction false} OfferStops<S, Q, T>(step: (S, Q) -> (Option<T>, S), query: nat -> Q,
                                               st: S, k: nat, x: T, events: seq<Event>, more: seq<Event>)
    requires Offer(step, query, st, k, x, events).closed
    ensures Offer(step, query, st, k, x, events + more) == Offer(step, query, st, k, x, events)
    decreases |events|, 1
  {
    assert (events + more)[0] == events[0] && (events + more)[1..] == events[1..] + more;
    match events[0]
    case Consumed => AwaitTickStops(step, query, st, k + 1, events[1..], more);
    case Tick => OfferStops(step, query, st, k, x, events[1..], more);
    case Cancel =>
  }

  lemma {:induction false} AwaitTickStops<S, Q, T>(step: (S, Q) -> (Option<T>, S), query: nat -> Q,
                                                   st: S, k: nat, events: seq<Event>, more: seq<Event>)
    requires AwaitTick(step, query, st, k, events).closed
    ensures AwaitTick(step, query, st, k, events + more) == AwaitTick(step, query, st, k, events)
    decreases |events|, 0
  {
    assert (events + more)[0] == events[0] && (events + more)[1..] == events[1..] + more;
    match events[0]
    case Tick => IterateStops(step, query, st, k, events[1..], more);
    case Consumed => AwaitTickStops(step, query, st, k, events[1..], more);
    case Cancel =>
  }

  /** What is received is exactly what the completed iterations produced, in
      order: one offer per iteration, nothing reordered, nothing dropped. */
  lemma {:induction false} IterateOutputs<S, Q, T>(step: (S, Q) -> (Option<T>, S), init: S,
                                                   query: nat -> Q, k: nat, events: seq<Event>)
    ensures var t := Iterate(step, query, StateAfter(step, init, query, k), k, events);
      k <= t.completed && Outputs(step, init, query, k) + t.sent == Outputs(step, init, query, t.completed)
    decreases |events|, 2
  {
    var (out, st') := step(StateAfter(step, init, query, k), query(k));
    match out
    case Some(x) => OfferOutputs(step, init, query, k, events);
    case None =>
      assert Outputs(step, init, query, k + 1) == Outputs(step, init, query, k);
      AwaitTickOutputs(step, init, query, k + 1, events);
  }

  lemma {:induction false} OfferOutputs<S, Q, T>(step: (S, Q) -> (Option<T>, S), init: S,
                                                 query: nat -> Q, k: nat, events: seq<Event>)
    requires step(StateAfter(step, init, query, k), query(k)).0.Some?
    ensures var (out, st') := step(StateAfter(step, init, query, k), query(k));
      var t := Offer(step, query, st', k, out.value, events);
      k <= t.completed && Outputs(step, init, query, k) + t.sent == Outputs(step, init, query, t.completed)
    decreases |events|, 1
  {
    var (out, st') := step(StateAfter(step, init, query, k), query(k));
    if events != [] {
      match events[0]
      case Consumed =>
        assert Outputs(step, init, query, k + 1) == Outputs(step, init, query, k) + [out.value];
        AwaitTickOutputs(step, init, query, k + 1, events[1..]);
        var t := AwaitTick(step, query, st', k + 1, events[1..]);
        assert Outputs(step, init, query, k) + ([out.value] + t.sent)
            == Outputs(step, init, query, k + 1) + t.sent;
      case Tick => OfferOutputs(step, init, query, k, events[1..]);
      case Cancel =>
    }
  }

  lemma {:induction false} AwaitTickOutputs<S, Q, T>(step: (S, Q) -> (Option<T>, S), init: S,
                                                     query: nat -> Q, k: nat, events: seq<Event>)
    ensures var t := AwaitTick(step, query, StateAfter(step, init, query, k), k, events);
      k <= t.completed && Outputs(step, init, query, k) + t.sent == Outputs(step, init, query, t.completed)
    decreases |events|, 0
  {
    if events != [] {
      match events[0]
      case Tick => IterateOutputs(step, init, query, k, events[1..]);
      case Consumed => AwaitTickOutputs(step, init, query, k, events[1..]);
      case Cancel =>
    }
  }

  /** The protocol of a whole run: the samples received are the outputs of the
      completed iterations, the channel is closed exactly when a cancellation
      arrived, and after that nothing more happens. */
  lemma RunProtocol<S, Q, T>(step: (S, Q) -> (Option<T>, S), init: S, query: nat -> Q,
                             events: seq<Event>, more: seq<Event>)
    ensures Run(step, init, query, events).sent
         == Outputs(step, init, query, Run(step, init, query, events).completed)
    ensures Run(step, init, query, events).closed <==> Cancel in events
    ensures Run(step, init, query, events).closed
        ==> Run(step, init, query, events + more) == Run(step, init, query, events)
  {
    IterateOutputs(step, init, query, 0, events);
    IterateClosed(step, query, init, 0, events);
    if Run(step, init, query, events).closed {
      IterateStops(step, query, init, 0, events, more);
    }
  }

  /** The step of a sampler that offers a sample on every iteration. */
  function Always<S, Q, T>(convert: (S, Q) -> (T, S)): (S, Q) -> (Option<T>, S)
  {
    (s: S, q: Q) => (Some(convert(s, q).0), convert(s, q).1)
  }

  /** The sample iteration `i` of such a sampler computes. */
  function SampleAt<S, Q, T>(convert: (S, Q) -> (T, S), init: S, query: nat -> Q, i: nat): T
  {
    convert(StateAfter(Always(convert), init, query, i), query(i)).0
  }

  /** A sampler that always has a sample to offer produces one per iteration,
      each computed from that iteration's query in the state the earlier
      iterations left. */
  lemma {:induction false} AlwaysOffers<S, Q, T>(convert: (S, Q) -> (T, S), init: S,
                                                 query: nat -> Q, n: nat)
    ensures |Outputs(Always(convert), init, query, n)| == n
    ensures forall i :: 0 <= i < n ==>
      Outputs(Always(convert), init, query, n)[i] == SampleAt(convert, init, query, i)
  {
    if n > 0 {
      AlwaysOffers(convert, init, query, n - 1);
      var st := StateAfter(Always(convert), init, query, n - 1);
      assert Always(convert)(st, query(n - 1)).0 == Some(convert(st, query(n - 1)).0);
      assert Outputs(Always(convert), init, query, n)
          == Outputs(Always(convert), init, query, n - 1) + [SampleAt(convert, init, query, n - 1)];
    }
  }
}
