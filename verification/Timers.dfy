/** Timers that share one sorted queue and one ticker. */
module Timers {
  import opened Wrappers
  import Q = SortedQueue

  const MAX_TIMER_PROCESSING_MS := 30.0

  class BaseTimer {
    const id: nat
    var nextFireTimestamp: real
    var isScheduled: bool

    constructor (id: nat)
      ensures this.id == id && !isScheduled
    {
      this.id, nextFireTimestamp, isScheduled := id, 0.0, false;
    }

    /** Later deadlines come first, so that the earliest is at the end of the queue. */
    function Compare(other: BaseTimer): real
      reads this`nextFireTimestamp, other`nextFireTimestamp
    {
      if other == this then 0.0
      else
        var dt := other.nextFireTimestamp - nextFireTimestamp;
        if dt == 0.0 then (id - other.id) as real else dt
    }
  }

  function Order(a: BaseTimer, b: BaseTimer): real
    reads a`nextFireTimestamp, b`nextFireTimestamp
  {
    a.Compare(b)
  }

  ghost predicate StrictlySorted(arr: seq<BaseTimer>)
    reads (set t | t in arr)`nextFireTimestamp
  {
    forall i, j :: 0 <= i < j < |arr| ==> arr[i].Compare(arr[j]) < 0.0
  }

  ghost predicate DistinctIds(timers: set<BaseTimer>)
  {
    forall a, b :: a in timers && b in timers && a != b ==> a.id != b.id
  }

  /** What a callback may do, in any order and to any timer. */
  datatype Command =
    | Schedule(timer: BaseTimer, next: real)
    | Unschedule(timer: BaseTimer)
    | Reset(timer: BaseTimer, next: real)

  /** The commands of one callback, whether it asks to be scheduled again, and the deadline it then gets. */
  datatype Script = Script(commands: seq<Command>, again: bool, next: real)

  /** The timers that wait, with their deadlines. */
  type Agenda = map<BaseTimer, real>

  function Performed(w: Agenda, c: Command): Agenda
  {
    match c
    case Schedule(t, next) => if t in w then w else w[t := next]
    case Unschedule(t) => w - {t}
    case Reset(t, next) => if t in w then w[t := next] else w
  }

  function PerformedAll(w: Agenda, commands: seq<Command>): Agenda
  {
    if commands == [] then w
    else Performed(PerformedAll(w, commands[..|commands| - 1]), commands[|commands| - 1])
  }

  /** What waits after the callback of a timer that was taken out has run. */
  function AfterFire(w: Agenda, t: BaseTimer, script: Script): Agenda
  {
    var v := PerformedAll(w, script.commands);
    if script.again then Performed(v, Schedule(t, script.next)) else v
  }

  /** `t` is due, and before all others: its deadline is the earliest; of equal ones the newest timer comes first. */
  ghost predicate NextDue(w: Agenda, now: real, t: BaseTimer)
  {
    && t in w && w[t] <= now
    && forall u :: u in w && u != t ==> w[t] < w[u] || (w[t] == w[u] && u.id < t.id)
  }

  ghost predicate NothingDue(w: Agenda, now: real)
  {
    forall t :: t in w ==> w[t] > now
  }

  predicate InTime(startTime: real, now: real) { now - startTime <= MAX_TIMER_PROCESSING_MS }

  /** At every reading so far the next due timer fired. */
  ghost predicate Firings(states: seq<Agenda>, log: seq<BaseTimer>, startTime: real, clock: seq<real>,
                          scripts: nat -> Script)
  {
    && |log| <= |clock| && |states| == |log| + 1
    && forall i {:trigger log[i]} :: 0 <= i < |log| ==>
         && InTime(startTime, clock[i]) && NextDue(states[i], clock[i], log[i])
         && states[i + 1] == AfterFire(states[i] - {log[i]}, log[i], scripts(i))
  }

  lemma FiringsMore(states: seq<Agenda>, log: seq<BaseTimer>, startTime: real, clock: seq<real>,
                    scripts: nat -> Script, t: BaseTimer)
    requires Firings(states, log, startTime, clock, scripts) && |log| < |clock|
    requires var n := |log|; InTime(startTime, clock[n]) && NextDue(states[n], clock[n], t)
    ensures Firings(states + [AfterFire(states[|log|] - {t}, t, scripts(|log|))], log + [t], startTime, clock, scripts)
  {
    hide NextDue, AfterFire;
    var next := states + [AfterFire(states[|log|] - {t}, t, scripts(|log|))];
    forall i | 0 <= i < |log| + 1
      ensures InTime(startTime, clock[i]) && NextDue(next[i], clock[i], (log + [t])[i])
      ensures next[i + 1] == AfterFire(next[i] - {(log + [t])[i]}, (log + [t])[i], scripts(i))
    {
      if i < |log| {
        assert (log + [t])[i] == log[i] && next[i] == states[i] && next[i + 1] == states[i + 1];
      }
    }
  }

  lemma NoFirings(w: Agenda, startTime: real, clock: seq<real>, scripts: nat -> Script)
    ensures Firings([w], [], startTime, clock, scripts)
  {
  }

  /**
   What a tick does: at every reading the next due timer fires, and no other one. It ends only because a reading is past
   the time limit, because nothing is due, or because there are no more readings.
   */
  ghost predicate Ticked(states: seq<Agenda>, log: seq<BaseTimer>, startTime: real, clock: seq<real>,
                         scripts: nat -> Script, idle: bool)
  {
    && Firings(states, log, startTime, clock, scripts)
    && (idle <==> |log| < |clock| && InTime(startTime, clock[|log|]) && NothingDue(states[|log|], clock[|log|]))
    && (!idle ==> |log| == |clock| || !InTime(startTime, clock[|log|]))
  }

  class Scheduler {
    const queue: Q.SortedQueue<BaseTimer>
    var tickerOn: bool
    var nextId: nat
    /** All timers created so far. */
    ghost var timers: set<BaseTimer>

    ghost predicate Sound()
      reads this, queue, timers
    {
      && DistinctIds(timers) && (forall t :: t in timers ==> t.id < nextId)
      && Waiting() <= timers
      && StrictlySorted(queue.arr)
    }

    /** A timer is marked as scheduled exactly while it is in the queue. */
    ghost predicate Valid()
      reads this, queue, timers
    {
      Sound() && forall t :: t in timers ==> (t.isScheduled <==> t in Waiting())
    }

    /** Between events the ticker runs exactly while there is something to wait for. */
    ghost predicate Settled()
      reads this, queue, timers
    {
      Valid() && (tickerOn <==> queue.arr != [])
    }

    constructor ()
      ensures Settled() && queue.arr == [] && timers == {} && fresh(queue)
    {
      queue := new Q.SortedQueue();
      tickerOn, nextId, timers := false, 0, {};
    }

    method NewTimer() returns (t: BaseTimer)
      requires Valid()
      modifies this`nextId, this`timers
      ensures Valid() && fresh(t) && timers == old(timers) + {t}
      ensures tickerOn == old(tickerOn) && queue.arr == old(queue.arr)
    {
      t := new BaseTimer(nextId);
      nextId := nextId + 1;
      timers := timers + {t};
    }

    /** While an event is handled: whenever something waits, the ticker runs. */
    ghost predicate Running()
      reads this, queue, timers
    {
      Valid() && (queue.arr != [] ==> tickerOn)
    }

    ghost function Waiting(): set<BaseTimer>
      reads queue
    {
      set t | t in queue.arr
    }

    ghost function Deadlines(): Agenda
      reads queue, set t | t in queue.arr
    {
      map t | t in queue.arr :: t.nextFireTimestamp
    }

    method StartTickerIfNeeded()
      modifies this`tickerOn
      ensures tickerOn <==> old(tickerOn) || queue.arr != []
    {
      if !tickerOn && queue.Size() > 0 {
        tickerOn := true;
      }
    }

    method StopTickerIfNeeded()
      modifies this`tickerOn
      ensures tickerOn <==> old(tickerOn) && queue.arr != []
    {
      if tickerOn && queue.Size() <= 0 {
        tickerOn := false;
      }
    }

    /** `gScheduledTimers.has(t)` */
    method Find(t: BaseTimer) returns (found: bool)
      requires Sound() && t in timers
      ensures found <==> t in Waiting()
    {
      hide StrictlySorted, DistinctIds;
      SortedAround(queue.arr, timers, t);
      found := queue.Has(t, Order);
    }

    /** `gScheduledTimers.push(t)` */
    method Insert(t: BaseTimer)
      requires Sound() && t in timers && t !in Waiting()
      modifies queue
      ensures Sound() && Waiting() == old(Waiting()) + {t}
    {
      hide StrictlySorted, DistinctIds;
      SortedAround(queue.arr, timers, t);
      ghost var before := queue.arr;
      ghost var idx := queue.Push(t, Order);
      PushedSorted(before, idx, t);
    }

    /** `gScheduledTimers.delete(t)` */
    method Remove(t: BaseTimer) returns (found: bool)
      requires Sound() && t in timers
      modifies queue
      ensures Sound() && Waiting() == old(Waiting()) - {t} && (found <==> t in old(Waiting()))
    {
      hide StrictlySorted, DistinctIds;
      SortedAround(queue.arr, timers, t);
      ghost var before := queue.arr;
      ghost var idx;
      found, idx := queue.Delete(t, Order);
      if found {
        CutSorted(before, idx);
      }
    }

    /** A timer that already waits keeps its deadline. */
    method Schedule(t: BaseTimer, next: real)
      requires Running() && t in timers
      modifies this`tickerOn, queue, t
      ensures Settled() && Waiting() == old(Waiting()) + {t}
      ensures t.nextFireTimestamp == if t in old(Waiting()) then old(t.nextFireTimestamp) else next
      ensures Deadlines() == Performed(old(Deadlines()), Command.Schedule(t, next))
    {
      hide StrictlySorted, DistinctIds;
      var has := Find(t);
      if has {
        assert t.isScheduled;
        return;
      }
      t.nextFireTimestamp := next;
      Insert(t);
      assert !t.isScheduled;
      t.isScheduled := true;
      assert t in Waiting();
      StartTickerIfNeeded();
    }

    method Unschedule(t: BaseTimer)
      requires Running() && t in timers
      modifies this`tickerOn, queue, t`isScheduled
      ensures Settled() && Waiting() == old(Waiting()) - {t}
      ensures Deadlines() == Performed(old(Deadlines()), Command.Unschedule(t))
    {
      hide StrictlySorted, DistinctIds;
      var found := Remove(t);
      if found {
        t.isScheduled := false;
      }
      assert queue.arr != [] ==> queue.arr[0] in Waiting();
      StopTickerIfNeeded();
    }

    /** A timer that waits gets a new deadline; another one is left alone. */
    method Reset(t: BaseTimer, next: real)
      requires Running() && t in timers
      modifies this`tickerOn, queue, t
      ensures Running() && Waiting() == old(Waiting())
      ensures old(Settled()) ==> Settled()
      ensures t.nextFireTimestamp == if t in old(Waiting()) then next else old(t.nextFireTimestamp)
      ensures Deadlines() == Performed(old(Deadlines()), Command.Reset(t, next))
    {
      hide StrictlySorted, DistinctIds;
      var scheduled := t.isScheduled;
      if scheduled {
        Unschedule(t);
      }
      if scheduled {
        Schedule(t, next);
      }
    }

    method Perform(c: Command)
      requires Running() && c.timer in timers
      modifies this`tickerOn, queue, c.timer
      ensures Running() && (old(Settled()) ==> Settled())
      ensures Deadlines() == Performed(old(Deadlines()), c)
    {
      hide StrictlySorted, DistinctIds;
      match c
      case Schedule(t, next) => Schedule(t, next);
      case Unschedule(t) => Unschedule(t);
      case Reset(t, next) => Reset(t, next);
    }

    method PerformAll(commands: seq<Command>)
      requires Running() && forall c :: c in commands ==> c.timer in timers
      modifies this`tickerOn, queue, timers
      ensures Running() && Deadlines() == PerformedAll(old(Deadlines()), commands)
    {
      hide StrictlySorted, DistinctIds, Valid;
      for i := 0 to |commands|
        invariant Running() && Deadlines() == PerformedAll(old(Deadlines()), commands[..i])
      {
        assert commands[i] in commands;
        assert commands[..i + 1][..i] == commands[..i];
        Perform(commands[i]);
      }
      assert commands[..|commands|] == commands;
    }

    /** `t` has just left the queue and is still marked. */
    ghost predicate Popped(t: BaseTimer)
      reads this, queue, timers
    {
      && Sound() && t in timers && t !in Waiting() && t.isScheduled
      && (forall u :: u in timers && u != t ==> (u.isScheduled <==> u in Waiting()))
      && (queue.arr != [] ==> tickerOn)
    }

    /** Runs the callback of a timer that was taken from the queue. */
    method Fire(t: BaseTimer, script: Script)
      requires Popped(t) && forall c :: c in script.commands ==> c.timer in timers
      modifies this`tickerOn, queue, timers
      ensures Settled() && (script.again ==> t in Waiting())
      ensures Deadlines() == AfterFire(old(Deadlines()), t, script)
    {
      hide StrictlySorted, DistinctIds;
      assert t.isScheduled;
      t.isScheduled := false;
      PerformAll(script.commands);
      if script.again {
        Schedule(t, script.next);
      } else {
        StopTickerIfNeeded();
      }
    }

    /** Takes the timer with the earliest deadline, if it is due. */
    method PopDue(now: real) returns (due: Option<BaseTimer>)
      requires Settled()
      modifies queue
      ensures due.None? ==> Settled() && forall t :: t in Waiting() ==> t.nextFireTimestamp > now
      ensures due.Some? ==> Popped(due.value) && Waiting() == old(Waiting()) - {due.value}
      ensures due.Some? ==> due.value in old(Waiting()) && due.value.nextFireTimestamp <= now
      ensures due.Some? ==> forall t :: t in old(Waiting()) ==> due.value.nextFireTimestamp <= t.nextFireTimestamp
      ensures due.None? ==> Deadlines() == old(Deadlines()) && NothingDue(Deadlines(), now)
      ensures due.Some? ==>
                Deadlines() == old(Deadlines()) - {due.value} && NextDue(old(Deadlines()), now, due.value)
    {
      hide StrictlySorted, DistinctIds;
      LastIsEarliest(queue.arr);
      if queue.Size() > 0 && queue.Peek().value.nextFireTimestamp <= now {
        ghost var arr := queue.arr;
        CutSorted(arr, |arr| - 1);
        assert arr[..|arr| - 1] + arr[|arr| - 1 + 1..] == arr[..|arr| - 1];
        assert arr[|arr| - 1] in Waiting();
        due := queue.Pop();
        var has := Find(due.value);
        assert !has;
      } else {
        due := None;
      }
    }

    /** One call of the ticker; `clock` is what it reads, `scripts` what the callbacks do. */
    method Tick(startTime: real, clock: seq<real>, scripts: nat -> Script)
      returns (idle: bool, ghost log: seq<BaseTimer>, ghost states: seq<Agenda>)
      requires Settled()
      requires forall i, c :: c in scripts(i).commands ==> c.timer in timers
      modifies this`tickerOn, queue, timers
      ensures Settled()
      ensures Ticked(states, log, startTime, clock, scripts, idle)
      ensures states[0] == old(Deadlines()) && states[|log|] == Deadlines()
    {
      hide StrictlySorted, DistinctIds, Running, Valid, NextDue, NothingDue, AfterFire, Firings;
      NoFirings(Deadlines(), startTime, clock, scripts);
      log, states := [], [Deadlines()];
      for i := 0 to |clock|
        invariant Settled()
        invariant |log| == i && |states| == i + 1 && states[0] == old(Deadlines()) && states[i] == Deadlines()
        invariant Firings(states, log, startTime, clock, scripts)
      {
        var now := clock[i];
        if now - startTime > MAX_TIMER_PROCESSING_MS {
          return false, log, states;
        }
        var due := PopDue(now);
        if due.None? {
          return true, log, states;
        }
        assert forall c :: c in scripts(i).commands ==> c.timer in timers;
        FiringsMore(states, log, startTime, clock, scripts, due.value);
        Fire(due.value, scripts(i));
        log, states := log + [due.value], states + [Deadlines()];
      }
      return false, log, states;
    }

    /** Any interleaving of calls from outside and ticks leaves the scheduler settled after every event. */
    method Run(events: seq<Event>) returns (ghost history: seq<Agenda>, ghost steps: seq<Steps>)
      requires Settled() && forall e :: e in events ==> e.Known(timers)
      modifies this`tickerOn, queue, timers
      ensures Settled()
      ensures |steps| == |events| && |history| == |events| + 1
      ensures history[0] == old(Deadlines()) && history[|events|] == Deadlines()
      ensures forall i {:trigger steps[i]} :: 0 <= i < |events| ==>
                Happened(history[i], events[i], steps[i], history[i + 1])
    {
      hide StrictlySorted, DistinctIds, Valid, Ticked, Performed;
      history, steps := [Deadlines()], [];
      for i := 0 to |events|
        invariant Settled()
        invariant |steps| == i && |history| == i + 1 && history[0] == old(Deadlines()) && history[i] == Deadlines()
        invariant forall j {:trigger steps[j]} :: 0 <= j < i ==>
                    Happened(history[j], events[j], steps[j], history[j + 1])
      {
        assert events[i] in events;
        ghost var step := Steps([], [], false);
        match events[i] {
          case Call(command) =>
            Perform(command);
          case Tick(startTime, clock, scripts) =>
            NobodyWaits();
            if tickerOn {
              var idle, log, states := Tick(startTime, clock, scripts);
              step := Steps(log, states, idle);
            }
        }
        history, steps := history + [Deadlines()], steps + [step];
      }
    }

    lemma NobodyWaits()
      ensures queue.arr == [] <==> Deadlines() == map[]
    {
      if queue.arr != [] {
        assert queue.arr[0] in Deadlines();
      }
    }
  }

  datatype Event = Call(command: Command) | Tick(startTime: real, clock: seq<real>, scripts: nat -> Script) {
    /** Only timers that exist are named. */
    ghost predicate Known(timers: set<BaseTimer>)
    {
      match this
      case Call(command) => command.timer in timers
      case Tick(_, _, scripts) => forall i, c :: c in scripts(i).commands ==> c.timer in timers
    }
  }

  /** What one event did: the timers that fired, and what waited before, between and after. */
  datatype Steps = Steps(log: seq<BaseTimer>, states: seq<Agenda>, idle: bool)

  /** One event: a call is performed; a tick fires what is due, and there is none while nothing waits. */
  ghost predicate Happened(w: Agenda, e: Event, steps: Steps, next: Agenda)
  {
    match e
    case Call(command) => steps.log == [] && next == Performed(w, command)
    case Tick(startTime, clock, scripts) =>
      if w == map[] then steps.log == [] && next == w
      else
        && Ticked(steps.states, steps.log, startTime, clock, scripts, steps.idle)
        && steps.states[0] == w && steps.states[|steps.log|] == next
  }

  lemma {:induction false} LeftAlone(w: Agenda, commands: seq<Command>, t: BaseTimer)
    requires t in w && forall c :: c in commands ==> c.timer != t
    ensures t in PerformedAll(w, commands) && PerformedAll(w, commands)[t] == w[t]
  {
    if commands != [] {
      var n := |commands| - 1;
      assert commands[n] in commands;
      LeftAlone(w, commands[..n], t);
    }
  }

  lemma {:induction false} StillWaits(states: seq<Agenda>, log: seq<BaseTimer>, startTime: real, clock: seq<real>,
                                      scripts: nat -> Script, idle: bool, t: BaseTimer, n: nat)
    requires Ticked(states, log, startTime, clock, scripts, idle) && n <= |log|
    requires t in states[0] && t !in log[..n] && forall i, c :: c in scripts(i).commands ==> c.timer != t
    ensures t in states[n] && states[n][t] == states[0][t]
  {
    if n > 0 {
      assert log[..n][..n - 1] == log[..n - 1] && log[..n][n - 1] == log[n - 1];
      StillWaits(states, log, startTime, clock, scripts, idle, t, n - 1);
      var w := states[n - 1] - {log[n - 1]};
      assert t in w && w[t] == states[0][t];
      assert forall c :: c in scripts(n - 1).commands ==> c.timer != t;
      LeftAlone(w, scripts(n - 1).commands, t);
      assert states[n] == AfterFire(w, log[n - 1], scripts(n - 1));
    }
  }

  /** A timer that is due when a tick begins, and that no callback touches, fires before the tick runs out of work. */
  lemma DueFires(states: seq<Agenda>, log: seq<BaseTimer>, startTime: real, clock: seq<real>, scripts: nat -> Script,
                 t: BaseTimer)
    requires Ticked(states, log, startTime, clock, scripts, true)
    requires t in states[0] && forall i, c :: c in scripts(i).commands ==> c.timer != t
    requires states[0][t] <= clock[|log|]
    ensures t in log
  {
    if t !in log {
      assert log[..|log|] == log;
      StillWaits(states, log, startTime, clock, scripts, true, t, |log|);
    }
  }

  /** The last timer in the queue has the earliest deadline. */
  lemma LastIsEarliest(arr: seq<BaseTimer>)
    requires StrictlySorted(arr)
    ensures forall t :: t in arr ==> arr[|arr| - 1].nextFireTimestamp <= t.nextFireTimestamp
    ensures forall t :: t in arr && t != arr[|arr| - 1] && t.nextFireTimestamp == arr[|arr| - 1].nextFireTimestamp ==>
              t.id < arr[|arr| - 1].id
  {
    forall t | t in arr
      ensures arr[|arr| - 1].nextFireTimestamp <= t.nextFireTimestamp
      ensures t != arr[|arr| - 1] && t.nextFireTimestamp == arr[|arr| - 1].nextFireTimestamp ==>
                t.id < arr[|arr| - 1].id
    {
      var i :| 0 <= i < |arr| && arr[i] == t;
      if i < |arr| - 1 {
        assert arr[i].Compare(arr[|arr| - 1]) < 0.0;
      }
    }
  }

  lemma Antisymmetric(a: BaseTimer, b: BaseTimer)
    ensures a.Compare(b) == -b.Compare(a)
  {
  }

  lemma PushedSorted(arr: seq<BaseTimer>, idx: nat, t: BaseTimer)
    requires StrictlySorted(arr) && idx <= |arr|
    requires forall i :: 0 <= i < idx ==> Order(t, arr[i]) > 0.0
    requires forall i :: idx <= i < |arr| ==> Order(t, arr[i]) < 0.0
    ensures StrictlySorted(arr[..idx] + [t] + arr[idx..])
  {
    var q := arr[..idx] + [t] + arr[idx..];
    forall i, j | 0 <= i < j < |q| ensures q[i].Compare(q[j]) < 0.0 {
      if j == idx {
        Antisymmetric(q[i], t);
      }
    }
  }

  lemma CutSorted(arr: seq<BaseTimer>, idx: nat)
    requires StrictlySorted(arr) && idx < |arr|
    ensures StrictlySorted(arr[..idx] + arr[idx + 1..])
    ensures arr[idx] !in arr[..idx] + arr[idx + 1..]
    ensures forall t :: t in arr <==> t == arr[idx] || t in arr[..idx] + arr[idx + 1..]
  {
    var q := arr[..idx] + arr[idx + 1..];
    forall t | t in arr ensures t == arr[idx] || t in q {
      var k :| 0 <= k < |arr| && arr[k] == t;
      if k != idx {
        assert q[if k < idx then k else k - 1] == t;
      }
    }
    forall i | 0 <= i < |arr| && i != idx ensures arr[i] != arr[idx] {
      if i < idx {
        assert arr[i].Compare(arr[idx]) < 0.0;
      } else {
        assert arr[idx].Compare(arr[i]) < 0.0;
      }
    }
  }

  /** Lookups are defined for every timer: the queue is sorted around each of them. */
  lemma SortedAround(arr: seq<BaseTimer>, timers: set<BaseTimer>, t: BaseTimer)
    requires StrictlySorted(arr) && DistinctIds(timers) && t in timers && forall u :: u in arr ==> u in timers
    ensures forall i, j :: 0 <= i < j < |arr| && Order(t, arr[i]) <= 0.0 ==> Order(t, arr[j]) < 0.0
    ensures forall i :: 0 <= i < |arr| ==> (Order(t, arr[i]) == 0.0 <==> arr[i] == t)
  {
    forall i, j | 0 <= i < j < |arr| && Order(t, arr[i]) <= 0.0 ensures Order(t, arr[j]) < 0.0 {
      assert arr[i].Compare(arr[j]) < 0.0;
    }
  }
}
