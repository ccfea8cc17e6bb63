/** Runs asynchronous actions, a limited number at a time. */
module ParallelExecutor {
  import opened Wrappers
  import opened Texts

  /** An action that waits, or the promise of one that has started; promises are told apart by their serial number. */
  datatype Entry<A> = ActionEntry(action: A) | PromiseEntry(serial: nat)

  /**
   Exactly the first `busy` entries run, no promise stands twice, and actions start in the order in which they were
   pushed, each once.
   */
  ghost predicate Ordered<A>(queue: seq<Entry<A>>, busy: nat, nextSerial: nat, started: seq<A>, pushed: seq<A>)
  {
    && busy <= |queue|
    && (forall i :: 0 <= i < |queue| ==> (queue[i].PromiseEntry? <==> i < busy))
    && (forall i :: 0 <= i < busy ==> queue[i].serial < nextSerial)
    && (forall i, j :: 0 <= i < j < busy ==> queue[i].serial != queue[j].serial)
    && nextSerial == |started|
    && pushed == started + Waiting(queue, busy)
  }

  class ParallelExecutor<A(==)> {
    var queue: seq<Entry<A>>
    const concurrency: nat
    var awaiter: Option<nat>
    /** The number of the next promise. */
    var nextSerial: nat
    /** Every action ever pushed, and every action ever started, in order. */
    ghost var pushed: seq<A>
    ghost var started: seq<A>
    /** The waiters that have been resolved. */
    ghost var resolved: seq<nat>

    ghost function Busy(): nat
      reads this
    {
      Min(concurrency, |queue|)
    }

    ghost predicate Valid()
      reads this
    {
      && Ordered(queue, Busy(), nextSerial, started, pushed)
      // whoever waits has something to wait for
      && (awaiter.Some? ==> queue != [])
    }

    constructor (concurrency: nat)
      ensures Valid() && queue == [] && this.concurrency == concurrency
      ensures pushed == [] && started == [] && resolved == [] && awaiter == None
    {
      this.concurrency := concurrency;
      queue, awaiter, nextSerial := [], None, 0;
      pushed, started, resolved := [], [], [];
    }

    method Push(action: A)
      requires Valid()
      modifies this
      ensures Valid() && pushed == old(pushed) + [action]
      ensures |queue| == |old(queue)| + 1 && old(queue) <= queue && old(started) <= started
      ensures resolved == old(resolved) && awaiter == old(awaiter)
    {
      var idx := |queue|;
      WaitingMore(queue, Busy(), action);
      queue := queue + [ActionEntry(action)];
      pushed := pushed + [action];
      Activate(idx);
    }

    /** Starts the action at `idx` when the limit allows it. */
    method Activate(idx: nat)
      requires idx < |queue| && Ordered(queue, Min(concurrency, idx), nextSerial, started, pushed)
      requires concurrency <= idx + 1 || |queue| == idx + 1
      modifies this`queue, this`nextSerial, this`started
      ensures Valid()
      ensures |queue| == |old(queue)| && forall i :: 0 <= i < |queue| && i != idx ==> queue[i] == old(queue)[i]
      ensures started == if idx < concurrency then old(started) + [old(queue)[idx].action] else old(started)
    {
      if idx >= concurrency {
        return;
      }
      var entry := queue[idx];
      if entry.ActionEntry? {
        WaitingFirst(queue, idx, nextSerial);
        started := started + [entry.action];
        queue := queue[idx := PromiseEntry(nextSerial)];
        nextSerial := nextSerial + 1;
      }
    }

    /** A later waiter replaces an earlier one, which is then never resolved. */
    method Await(waiter: nat)
      requires Valid()
      modifies this`awaiter, this`resolved
      ensures Valid()
      ensures if queue == [] then resolved == old(resolved) + [waiter] && awaiter == old(awaiter)
              else resolved == old(resolved) && awaiter == Some(waiter)
    {
      if |queue| == 0 {
        resolved := resolved + [waiter];
        return;
      }
      awaiter := Some(waiter);
    }

    method NotifyIfNeeded()
      modifies this`awaiter, this`resolved
      ensures if queue == [] && old(awaiter).Some?
              then resolved == old(resolved) + [old(awaiter).value] && awaiter == None
              else resolved == old(resolved) && awaiter == old(awaiter)
    {
      if |queue| == 0 {
        if awaiter.Some? {
          resolved := resolved + [awaiter.value];
          awaiter := None;
        }
      }
    }

    ghost predicate InFlight(serial: nat)
      reads this
    {
      exists k :: 0 <= k < |queue| && queue[k] == PromiseEntry(serial)
    }

    /** The position of a promise in the queue: `queue.indexOf(newEntry)`. */
    method IndexOf(serial: nat) returns (i: nat)
      requires InFlight(serial)
      ensures i < |queue| && queue[i] == PromiseEntry(serial)
    {
      i := 0;
      while queue[i] != PromiseEntry(serial)
        invariant i < |queue|
        invariant exists k :: i <= k < |queue| && queue[k] == PromiseEntry(serial)
        decreases |queue| - i
      {
        i := i + 1;
      }
    }

    lemma IsBusy(serial: nat, k: nat)
      requires Valid() && k < |queue| && queue[k] == PromiseEntry(serial)
      ensures k < Busy()
    {
    }

    lemma FrontRuns(k: nat)
      requires Valid() && k < Busy()
      ensures queue[k].PromiseEntry? && InFlight(queue[k].serial)
    {
      assert queue[k] == PromiseEntry(queue[k].serial);
    }

    /** The promise at `k` leaves the queue. */
    method Leave(k: nat)
      requires Valid() && k < Busy()
      modifies this`queue
      ensures |queue| == |old(queue)| - 1
      ensures if |old(queue)| > concurrency
              then concurrency > 0 && Ordered(queue, concurrency - 1, nextSerial, started, pushed)
                   && old(queue)[concurrency].ActionEntry? && queue[concurrency - 1] == old(queue)[concurrency]
              else Ordered(queue, |queue|, nextSerial, started, pushed)
    {
      hide Cut, Ordered;
      Removed(queue, Busy(), nextSerial, started, pushed, k);
      NextInLine(queue, Busy(), nextSerial, started, pushed, k);
      queue := Cut(queue, k);
    }

    /** A running action succeeds or fails: its place goes to the first action that waits, if any. */
    method Settle(serial: nat)
      requires Valid() && InFlight(serial)
      modifies this
      ensures Valid() && |queue| == |old(queue)| - 1
      ensures pushed == old(pushed)
      ensures |old(queue)| <= concurrency ==> started == old(started)
      ensures |old(queue)| > concurrency ==> old(queue)[concurrency].ActionEntry?
      ensures |old(queue)| > concurrency ==> started == old(started) + [old(queue)[concurrency].action]
      ensures if queue == [] && old(awaiter).Some?
              then resolved == old(resolved) + [old(awaiter).value] && awaiter == None
              else resolved == old(resolved) && awaiter == old(awaiter)
    {
      var k := IndexOf(serial);
      IsBusy(serial, k);
      hide Ordered, InFlight;
      Leave(k);
      if |queue| >= concurrency {
        Activate(concurrency - 1);
      } else {
        NotifyIfNeeded();
      }
    }

    /** Whatever the order of completions, everything runs, and whoever waits is told once, at the very end. */
    method Drain(pick: nat -> nat, waiter: nat)
      requires Valid() && concurrency > 0 && queue != []
      modifies this
      ensures Valid() && queue == [] && started == pushed == old(pushed)
      ensures resolved == old(resolved) + [waiter] && awaiter == None
    {
      Await(waiter);
      var k: nat := 0;
      while queue != []
        invariant Valid() && pushed == old(pushed)
        invariant if queue != [] then awaiter == Some(waiter) && resolved == old(resolved)
                  else awaiter == None && resolved == old(resolved) + [waiter]
        decreases |queue|
      {
        var busy := Min(concurrency, |queue|);
        assert queue[pick(k) % busy] == PromiseEntry(queue[pick(k) % busy].serial);
        Settle(queue[pick(k) % busy].serial);
        k := k + 1;
      }
    }

    ghost function Tallied(): Tally<A>
      reads this
    {
      Tally(|queue|, awaiter, resolved, pushed)
    }

    method Handle(e: Event<A>)
      requires Valid()
      modifies this
      ensures Valid() && old(resolved) <= resolved && old(started) <= started && old(pushed) <= pushed
      ensures Tallied() == After(concurrency, old(Tallied()), e)
    {
      hide Ordered;
      match e
      case Push(action) => Push(action);
      case Await(waiter) => Await(waiter);
      case Settle(n) =>
        var busy := Min(concurrency, |queue|);
        if busy > 0 {
          FrontRuns(n % busy);
          Settle(queue[n % busy].serial);
        }
    }

    /** Any interleaving of pushes, waits and completions; while something runs a completion always takes one out. */
    method Run(events: seq<Event<A>>)
      requires Valid()
      modifies this
      ensures Valid() && old(resolved) <= resolved && old(started) <= started && old(pushed) <= pushed
      ensures |resolved| - |old(resolved)| <= Waits(events) + if old(awaiter).Some? then 1 else 0
      ensures Tallied() == Counted(concurrency, old(Tallied()), events)
    {
      hide Valid;
      ghost var waiting: nat := if awaiter.Some? then 1 else 0;
      for i := 0 to |events|
        invariant Valid() && old(resolved) <= resolved && old(started) <= started && old(pushed) <= pushed
        invariant Tallied() == Counted(concurrency, old(Tallied()), events[..i])
        invariant |resolved| - |old(resolved)| + (if awaiter.Some? then 1 else 0) <= Waits(events[..i]) + waiting
      {
        assert events[..i + 1][..i] == events[..i];
        Handle(events[i]);
      }
      assert events[..|events|] == events;
    }
  }

  datatype Event<A> = Push(action: A) | Await(waiter: nat) | Settle(n: nat)

  /** How long the queue is, who waits, who has been told, and what was pushed. */
  datatype Tally<A> = Tally(length: nat, awaiter: Option<nat>, resolved: seq<nat>, pushed: seq<A>)

  function After<A>(concurrency: nat, t: Tally<A>, e: Event<A>): Tally<A>
  {
    match e
    case Push(action) => t.(length := t.length + 1, pushed := t.pushed + [action])
    case Await(waiter) =>
      if t.length == 0 then t.(resolved := t.resolved + [waiter]) else t.(awaiter := Some(waiter))
    case Settle(_) =>
      if concurrency == 0 || t.length == 0 then t
      else if t.length == 1 && t.awaiter.Some? then Tally(0, None, t.resolved + [t.awaiter.value], t.pushed)
      else t.(length := t.length - 1)
  }

  function Counted<A>(concurrency: nat, t: Tally<A>, events: seq<Event<A>>): Tally<A>
  {
    if events == [] then t
    else After(concurrency, Counted(concurrency, t, events[..|events| - 1]), events[|events| - 1])
  }

  function Waits<A>(events: seq<Event<A>>): nat
  {
    if events == [] then 0 else Waits(events[..|events| - 1]) + if events[|events| - 1].Await? then 1 else 0
  }

  /** The promise at `k` leaves: one action fewer runs, everything else stays as it was. */
  lemma Removed<A>(queue: seq<Entry<A>>, busy: nat, nextSerial: nat, started: seq<A>, pushed: seq<A>, k: nat)
    requires Ordered(queue, busy, nextSerial, started, pushed) && k < busy
    ensures |Cut(queue, k)| == |queue| - 1 && Ordered(Cut(queue, k), busy - 1, nextSerial, started, pushed)
  {
    assert Waiting(Cut(queue, k), busy - 1) == Waiting(queue, busy);
  }

  /** The first action that waits moves up one place. */
  lemma NextInLine<A>(queue: seq<Entry<A>>, busy: nat, nextSerial: nat, started: seq<A>, pushed: seq<A>, k: nat)
    requires Ordered(queue, busy, nextSerial, started, pushed) && k < busy
    ensures busy < |queue| ==> Cut(queue, k)[busy - 1] == queue[busy] && queue[busy].ActionEntry?
  {
  }

  function Cut<T>(s: seq<T>, k: nat): seq<T>
    requires k < |s|
  {
    s[..k] + s[k + 1..]
  }

  /** The actions that have not started, in queue order. */
  ghost function Waiting<A>(queue: seq<Entry<A>>, busy: nat): seq<A>
    requires busy <= |queue| && forall i :: busy <= i < |queue| ==> queue[i].ActionEntry?
  {
    seq(|queue| - busy, i requires 0 <= i < |queue| - busy => queue[busy + i].action)
  }

  lemma WaitingMore<A>(queue: seq<Entry<A>>, busy: nat, action: A)
    requires busy <= |queue| && forall i :: busy <= i < |queue| ==> queue[i].ActionEntry?
    ensures Waiting(queue + [ActionEntry(action)], busy) == Waiting(queue, busy) + [action]
  {
  }

  lemma WaitingFirst<A>(queue: seq<Entry<A>>, busy: nat, serial: nat)
    requires busy < |queue| && forall i :: busy <= i < |queue| ==> queue[i].ActionEntry?
    ensures Waiting(queue, busy) == [queue[busy].action] + Waiting(queue[busy := PromiseEntry(serial)], busy + 1)
  {
  }
}
