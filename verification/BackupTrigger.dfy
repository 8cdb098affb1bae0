/** The on-demand backup wake-up: durable requests, one stored permit, and a runner that waits and passes. */
module BackupTrigger {

  // ---------- the notification ----------

  /** The runner's place in line: not waiting, waiting, or waiting and already chosen by a signal. */
  datatype Waiter = Absent | Parked | Chosen

  datatype Notify = Notify(permit: bool, waiter: Waiter) {

    /** A permit is only stored while nobody parked could take the signal. */
    predicate Valid() {
      permit ==> waiter != Parked
    }

    /** Somebody will be woken by a signal already sent. */
    predicate Pending() {
      permit || waiter == Chosen
    }
  }

  /** `notify_one`: choose the waiter, or store the one permit. */
  function Signalled(n: Notify): Notify {
    if n.waiter == Parked then n.(waiter := Chosen) else n.(permit := true)
  }

  /** Starting to wait: take the permit and go on at once, or park. */
  function Polled(n: Notify): (Notify, bool)
    requires n.waiter == Absent
  {
    if n.permit then (n.(permit := false), true) else (n.(waiter := Parked), false)
  }

  /** The wait given up: a signal that had chosen this waiter is stored again. */
  function Dropped(n: Notify): Notify {
    if n.waiter == Chosen then Notify(true, Absent) else n.(waiter := Absent)
  }

  /** The wake-up shared by the management plane and the runner. */
  class Trigger {
    var notify: Notify

    constructor ()
      ensures notify == Notify(false, Absent) && notify.Valid()
    {
      notify := Notify(false, Absent);
    }

    method Signal()
      requires notify.Valid()
      modifies this
      ensures notify == Signalled(old(notify)) && notify.Valid() && notify.Pending()
    {
      if notify.waiter == Parked {
        notify := notify.(waiter := Chosen);
      } else {
        notify := notify.(permit := true);
      }
    }

    /** The first poll of a wait: true when it is over at once. */
    method Wait() returns (over: bool)
      requires notify.Valid() && notify.waiter == Absent
      modifies this
      ensures (notify, over) == Polled(old(notify)) && notify.Valid()
      ensures over <==> old(notify).Pending()
    {
      over := notify.permit;
      notify := if over then notify.(permit := false) else notify.(waiter := Parked);
    }

    method GiveUp()
      requires notify.Valid()
      modifies this
      ensures notify == Dropped(old(notify)) && notify.Valid() && (notify.Pending() <==> old(notify).Pending())
    {
      notify := if notify.waiter == Chosen then Notify(true, Absent) else notify.(waiter := Absent);
    }
  }

  // ---------- requests and the runner ----------

  type Key = nat

  /** A request's handler: checked against replay, recorded and about to signal, done, or dropped by its client. */
  datatype Handler = Checked(key: Key) | Recorded(key: Key) | Finished

  /** The runner: about to pass, passing, or waiting. */
  datatype Runner = Starting | Passing | Waiting

  /**
   * `recorded` are the durable requests; `seen` those recorded before the latest pass began; `signalled` those whose
   * handler went on to signal; `abandoned` those whose handler was dropped between record and signal.
   */
  datatype System = System(
    notify: Notify, runner: Runner, handlers: seq<Handler>,
    recorded: set<Key>, seen: set<Key>, signalled: set<Key>, abandoned: set<Key>)

  datatype Step =
    | Arrive(key: Key)
    | Record(handler: nat)
    | Signal(handler: nat)
    | Abandon(handler: nat)
    | BeginPass
    | EndPass
    | Wake
    | Interval

  function Next(s: System, step: Step): System {
    match step
    case Arrive(key) =>
      // A stored key is replayed: nothing is recorded and nothing is signalled.
      if key in s.recorded then s else s.(handlers := s.handlers + [Checked(key)])
    case Record(h) =>
      if h >= |s.handlers| || !s.handlers[h].Checked? then s
      else if s.handlers[h].key in s.recorded then s.(handlers := s.handlers[h := Finished])
      else s.(recorded := s.recorded + {s.handlers[h].key}, handlers := s.handlers[h := Recorded(s.handlers[h].key)])
    case Signal(h) =>
      if h >= |s.handlers| || !s.handlers[h].Recorded? then s
      else s.(notify := Signalled(s.notify), signalled := s.signalled + {s.handlers[h].key}, handlers := s.handlers[h := Finished])
    case Abandon(h) =>
      if h >= |s.handlers| then s
      else s.(handlers := s.handlers[h := Finished],
              abandoned := if s.handlers[h].Recorded? then s.abandoned + {s.handlers[h].key} else s.abandoned)
    case BeginPass => if s.runner != Starting then s else s.(runner := Passing, seen := s.recorded)
    case EndPass =>
      if s.runner != Passing || s.notify.waiter != Absent then s
      else s.(notify := Polled(s.notify).0, runner := if Polled(s.notify).1 then Starting else Waiting)
    case Wake =>
      if s.runner != Waiting || s.notify.waiter != Chosen then s
      else s.(notify := s.notify.(waiter := Absent), runner := Starting)
    case Interval =>
      if s.runner != Waiting then s else s.(notify := Dropped(s.notify), runner := Starting)
  }

  function Run(s: System, steps: seq<Step>): System
    decreases steps
  {
    if steps == [] then s else Run(Next(s, steps[0]), steps[1..])
  }

  /** Boot: earlier requests may be recorded already, and the first pass begins at once. */
  function Boot(recorded: set<Key>): System {
    System(Notify(false, Absent), Starting, [], recorded, {}, {}, {})
  }

  /** A pass will begin without waiting for the interval. */
  predicate WakeUpDue(s: System) {
    s.notify.Pending() || s.runner == Starting
  }

  /** A handler is still between its record and its signal. */
  predicate InFlight(s: System, key: Key) {
    exists h :: 0 <= h < |s.handlers| && s.handlers[h] == Recorded(key)
  }

  ghost predicate Inv(s: System) {
    && s.notify.Valid()
    && (s.runner == Waiting <==> s.notify.waiter != Absent)
    && s.seen <= s.recorded && s.signalled <= s.recorded && s.abandoned <= s.recorded
    && (forall h :: 0 <= h < |s.handlers| && s.handlers[h].Recorded? ==> s.handlers[h].key in s.recorded)
    && (forall key :: key in s.recorded ==> Accounted(s, key))
    && (forall key :: key in s.signalled ==> key in s.seen || WakeUpDue(s))
  }

  /** Seen by a pass, or a wake-up is due, or the handler is about to signal, or it was dropped. */
  ghost predicate Accounted(s: System, key: Key) {
    key in s.seen || WakeUpDue(s) || InFlight(s, key) || key in s.abandoned
  }

  lemma HandlerMoves(s: System, h: nat, to: Handler, key: Key)
    requires h < |s.handlers| && InFlight(s, key) && s.handlers[h] != Recorded(key)
    ensures InFlight(s.(handlers := s.handlers[h := to]), key)
  {
    var i :| 0 <= i < |s.handlers| && s.handlers[i] == Recorded(key);
    assert s.handlers[h := to][i] == Recorded(key);
  }

  lemma StepKeepsInv(s: System, step: Step)
    requires Inv(s)
    ensures Inv(Next(s, step))
  {
    var t := Next(s, step);
    forall key | key in t.recorded ensures Accounted(t, key) {
      match step
      case Arrive(_) =>
        if InFlight(s, key) && t != s {
          var i :| 0 <= i < |s.handlers| && s.handlers[i] == Recorded(key);
          assert t.handlers[i] == Recorded(key);
        }
      case Record(h) =>
        if t != s {
          if key in s.recorded {
            if InFlight(s, key) {
              HandlerMoves(s, h, t.handlers[h], key);
            }
          } else {
            assert t.handlers[h] == Recorded(key);
          }
        }
      case Abandon(h) =>
        if h < |s.handlers| && InFlight(s, key) && s.handlers[h] != Recorded(key) {
          HandlerMoves(s, h, Finished, key);
        }
      case _ =>
    }
  }

  lemma {:induction false} RunKeepsInv(s: System, steps: seq<Step>)
    requires Inv(s)
    ensures Inv(Run(s, steps))
    decreases steps
  {
    if steps != [] {
      StepKeepsInv(s, steps[0]);
      RunKeepsInv(Next(s, steps[0]), steps[1..]);
    }
  }

  /**
   * In every interleaving of requests with the runner, every recorded request was seen by a pass that began after it
   * was recorded, or a wake-up is due, or its handler is about to signal, or that handler was dropped in between; once
   * its handler has signalled, only the first two remain.
   */
  lemma NoSignalLost(before: set<Key>, steps: seq<Step>, key: Key)
    requires key in Run(Boot(before), steps).recorded
    ensures Accounted(Run(Boot(before), steps), key)
    ensures key in Run(Boot(before), steps).signalled ==>
              key in Run(Boot(before), steps).seen || WakeUpDue(Run(Boot(before), steps))
  {
    RunKeepsInv(Boot(before), steps);
  }

  // ---------- what the runner then does ----------

  /** The runner's own steps, and no interval: finish the pass, take the wake-up, begin the next pass. */
  function RunnerAlone(s: System): System {
    Next(Next(Next(s, EndPass), Wake), BeginPass)
  }

  /** Without the interval the runner comes to see every recorded request exactly when a wake-up is due or none is unseen. */
  lemma WakeUpIsServed(s: System)
    requires Inv(s)
    ensures s.recorded <= RunnerAlone(s).seen <==> WakeUpDue(s) || s.recorded <= s.seen
  {
  }

  /** The interval serves every recorded request whatever else happened. */
  lemma IntervalServes(s: System)
    requires Inv(s) && s.runner == Waiting
    ensures Next(Next(s, Interval), BeginPass).seen == s.recorded
    ensures Next(s, Interval).notify.Pending() <==> s.notify.Pending()
  {
  }

  /** A waiting runner after its first pass, with one request recorded whose handler was dropped before its signal. */
  function AfterDroppedHandler(key: Key): System {
    var waiting := Next(Next(Boot({}), BeginPass), EndPass);
    Next(Next(Next(waiting, Arrive(key)), Record(0)), Abandon(0))
  }

  /** Such a request waits for the interval, and the client's retry is replayed without waking anybody. */
  lemma DroppedHandlerWaits(key: Key)
    ensures var s := Next(AfterDroppedHandler(key), Arrive(key));
            && key in s.recorded && key !in s.seen && s.handlers == [Finished]
            && !WakeUpDue(s) && key !in RunnerAlone(s).seen
  {
    var s := AfterDroppedHandler(key);
    assert s.recorded == {key} && s.runner == Waiting && s.notify == Notify(false, Parked);
  }
}
