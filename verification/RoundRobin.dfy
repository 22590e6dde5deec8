// The scheduler on values: who runs, who waits, who has exited; and what that means over whole runs.
module RoundRobin {
  import opened Machine

  /** current is None while the processor idles. */
  datatype State<T> = State(current: Option<T>, queue: seq<T>, zombies: seq<T>)

  datatype Event<T> = Create(t: T) | Schedule | Exit | Reap

  /** All threads, each as often as it is somewhere. */
  ghost function Census<T>(s: State<T>): multiset<T> {
    (if s.current.Some? then multiset{s.current.value} else multiset{}) + multiset(s.queue) + multiset(s.zombies)
  }

  /** Every thread is in exactly one place, once. */
  ghost predicate Placed<T(!new)>(s: State<T>) {
    forall t :: Census(s)[t] <= 1
  }

  /** The head of the queue runs next, if there is one. */
  ghost function Dispatched<T>(queue: seq<T>, zombies: seq<T>): State<T> {
    if queue == [] then State(None, [], zombies) else State(Some(queue[0]), queue[1..], zombies)
  }

  ghost function Next<T>(s: State<T>, e: Event<T>): State<T> {
    match e
    case Create(t) => State(s.current, s.queue + [t], s.zombies)
    case Schedule => Dispatched(if s.current.Some? then s.queue + [s.current.value] else s.queue, s.zombies)
    case Exit => Dispatched(s.queue, if s.current.Some? then s.zombies + [s.current.value] else s.zombies)
    case Reap => State(s.current, s.queue, [])
  }

  ghost predicate Possible<T>(s: State<T>, e: Event<T>) {
    e.Create? ==> Census(s)[e.t] == 0
  }

  lemma DispatchedCensus<T>(queue: seq<T>, zombies: seq<T>)
    ensures Census(Dispatched(queue, zombies)) == multiset(queue) + multiset(zombies)
  {
    if queue != [] {
      assert queue == [queue[0]] + queue[1..];
    }
  }

  lemma ScheduleCensus<T>(s: State<T>)
    ensures Census(Next(s, Schedule)) == Census(s)
  {
    DispatchedCensus(if s.current.Some? then s.queue + [s.current.value] else s.queue, s.zombies);
  }

  lemma ExitCensus<T>(s: State<T>)
    ensures Census(Next(s, Exit)) == Census(s)
  {
    DispatchedCensus(s.queue, if s.current.Some? then s.zombies + [s.current.value] else s.zombies);
  }

  /** Nobody appears from nowhere, and only Reap makes anyone disappear: the zombies. */
  lemma NextCensus<T>(s: State<T>, e: Event<T>)
    ensures Census(Next(s, e)) ==
      if e.Create? then Census(s) + multiset{e.t}
      else if e.Reap? then Census(s) - multiset(s.zombies)
      else Census(s)
  {
    ScheduleCensus(s);
    ExitCensus(s);
  }

  lemma NextPlaced<T(!new)>(s: State<T>, e: Event<T>)
    requires Placed(s) && Possible(s, e)
    ensures Placed(Next(s, e))
  {
    NextCensus(s, e);
  }

  // ----- whole runs

  ghost function Run<T>(s: State<T>, evs: seq<Event<T>>): State<T> {
    if evs == [] then s else Next(Run(s, evs[..|evs| - 1]), evs[|evs| - 1])
  }

  ghost function Dispatches<T>(evs: seq<Event<T>>): nat {
    if evs == [] then 0
    else Dispatches(evs[..|evs| - 1]) + if evs[|evs| - 1].Schedule? || evs[|evs| - 1].Exit? then 1 else 0
  }

  /** A waiting thread moves up by one place with each call of schedule and never otherwise. */
  lemma {:induction false} Waits<T>(s: State<T>, evs: seq<Event<T>>, k: nat)
    requires k < |s.queue| && Dispatches(evs) <= k
    ensures k - Dispatches(evs) < |Run(s, evs).queue|
    ensures Run(s, evs).queue[k - Dispatches(evs)] == s.queue[k]
  {
    if evs != [] {
      Waits(s, evs[..|evs| - 1], k);
    }
  }

  /** Exact round robin: the thread at position k of the queue is dispatched by the (k+1)-th call of
      schedule, whatever threads are created, exit or are reaped meanwhile. */
  lemma Served<T>(s: State<T>, evs: seq<Event<T>>, k: nat)
    requires k < |s.queue| && evs != [] && !evs[|evs| - 1].Create? && !evs[|evs| - 1].Reap?
    requires Dispatches(evs) == k + 1
    ensures Run(s, evs).current == Some(s.queue[k])
  {
    Waits(s, evs[..|evs| - 1], k);
  }

  // ----- giving up the processor

  /** A thread that exits is the last zombie, waits nowhere, and the head of the queue runs. */
  lemma Exits<T(!new)>(s: State<T>, x: T)
    requires Placed(s) && s.current == Some(x)
    ensures var t := Run(s, [Exit]);
      && t.zombies == s.zombies + [x] && x !in t.queue && t.current != Some(x)
      && (if s.queue == [] then t.current == None && t.queue == []
          else t.current == Some(s.queue[0]) && t.queue == s.queue[1..])
  {
    assert Census(s)[x] <= 1;
    assert Run(s, [Exit]) == Next(Run(s, []), Exit);
  }

  /** A thread that yields waits behind all that waited before it. */
  lemma Yields<T>(s: State<T>, x: T)
    requires s.current == Some(x)
    ensures var t := Run(s, [Schedule]);
      && t.zombies == s.zombies
      && (if s.queue == [] then t.current == Some(x) && t.queue == []
          else t.current == Some(s.queue[0]) && t.queue == s.queue[1..] + [x])
  {
    assert Run(s, [Schedule]) == Next(Run(s, []), Schedule);
  }

  /** It runs again with the call of schedule after those that serve the threads which waited. */
  lemma Returns<T>(s: State<T>, evs: seq<Event<T>>, x: T)
    requires s.current == Some(x) && evs != [] && !evs[|evs| - 1].Create? && !evs[|evs| - 1].Reap?
    requires Dispatches(evs) == |s.queue|
    ensures Run(Run(s, [Schedule]), evs).current == Some(x)
  {
    Yields(s, x);
    if s.queue == [] {
      assert false;
    } else {
      Served(Run(s, [Schedule]), evs, |s.queue| - 1);
    }
  }

  /** The thread neither runs nor waits. */
  ghost predicate Inactive<T>(s: State<T>, x: T) {
    s.current != Some(x) && x !in s.queue
  }

  /** Only creation makes a thread active; reaping removes it for good. */
  lemma {:induction false} StaysInactive<T>(s: State<T>, evs: seq<Event<T>>, x: T)
    requires Inactive(s, x) && Create(x) !in evs
    ensures Inactive(Run(s, evs), x)
    ensures x !in s.zombies || Reap in evs ==> x !in Run(s, evs).zombies
    ensures x in s.zombies && Reap !in evs ==> x in Run(s, evs).zombies
  {
    if evs != [] {
      var front, e := evs[..|evs| - 1], evs[|evs| - 1];
      assert evs == front + [e];
      StaysInactive(s, front, x);
    }
  }

  /** A thread that has exited never runs or waits again unless it is created anew; it stays a zombie until it is
      reaped, and then it is nowhere. */
  lemma ExitedForGood<T(!new)>(s: State<T>, evs: seq<Event<T>>, x: T)
    requires Placed(s) && s.current == Some(x) && Create(x) !in evs
    ensures var t := Run(Run(s, [Exit]), evs);
      Inactive(t, x) && (x in t.zombies <==> Reap !in evs)
  {
    Exits(s, x);
    StaysInactive(Run(s, [Exit]), evs, x);
  }

  // ----- all threads

  /** A run in which every thread created is a new one. */
  ghost predicate PossibleRun<T>(s: State<T>, evs: seq<Event<T>>) {
    forall n | 0 <= n < |evs| :: Possible(Run(s, evs[..n]), evs[n])
  }

  /** Throughout such a run every thread is in exactly one place. */
  lemma {:induction false} RunPlaced<T(!new)>(s: State<T>, evs: seq<Event<T>>)
    requires Placed(s) && PossibleRun(s, evs)
    ensures Placed(Run(s, evs))
  {
    if evs != [] {
      var front := evs[..|evs| - 1];
      forall n | 0 <= n < |front| ensures Possible(Run(s, front[..n]), front[n]) {
        assert front[..n] == evs[..n];
      }
      RunPlaced(s, front);
      NextPlaced(Run(s, front), evs[|evs| - 1]);
    }
  }
}
