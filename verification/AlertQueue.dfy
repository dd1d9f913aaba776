/** The hand-over of new alerts from the directive handler to worker tasks (duerapp_alert.c):
    the handler starts a worker only when it finds the queue empty, and a worker ends when it
    does.  Each step is one section under the queue mutex, or the work between two of them, so a
    run is any interleaving of the handlers and of all workers, overlapping ones included. */
module AlertQueueModel {
  import AlertModel

  type Alert = AlertModel.Rec

  /** A worker is about to look at the queue, is creating an alert, or has ended. */
  datatype Worker = Ready | Busy(alert: Alert) | Ended

  datatype Answer = Answer(alert: Alert, success: bool)

  /** `pushed`, `taken` and `answered` record the whole history. */
  datatype State = State(queue: seq<Alert>, workers: seq<Worker>,
                         pushed: seq<Alert>, taken: seq<Alert>, answered: seq<Answer>)

  const Initial := State([], [], [], [], [])

  datatype Step = DoSet(alert: Alert) | DoTake(w: nat) | DoAnswer(w: nat, success: bool)

  predicate Enabled(st: State, step: Step) {
    match step
    case DoSet(_) => true
    case DoTake(w) => w < |st.workers| && st.workers[w].Ready?
    case DoAnswer(w, _) => w < |st.workers| && st.workers[w].Busy?
  }

  function SetAlert(st: State, alert: Alert): State {
    st.(queue := st.queue + [alert],
        workers := if st.queue == [] then st.workers + [Ready] else st.workers,
        pushed := st.pushed + [alert])
  }

  function Take(st: State, w: nat): State
    requires w < |st.workers|
  {
    if st.queue == [] then st.(workers := st.workers[w := Ended])
    else st.(queue := st.queue[1..], workers := st.workers[w := Busy(st.queue[0])],
             taken := st.taken + [st.queue[0]])
  }

  function Reply(st: State, w: nat, success: bool): State
    requires w < |st.workers| && st.workers[w].Busy?
  {
    st.(workers := st.workers[w := Ready],
        answered := st.answered + [Answer(st.workers[w].alert, success)])
  }

  function Apply(st: State, step: Step): State {
    if !Enabled(st, step) then st else
    match step
    case DoSet(alert) => SetAlert(st, alert)
    case DoTake(w) => Take(st, w)
    case DoAnswer(w, success) => Reply(st, w, success)
  }

  function After(st: State, steps: seq<Step>): State
    decreases |steps|
  {
    if steps == [] then st else After(Apply(st, steps[0]), steps[1..])
  }

  // ----- the invariant -----

  function Held(worker: Worker, alert: Alert): nat {
    if worker == Busy(alert) then 1 else 0
  }

  /** How many workers hold the alert. */
  function InHand(workers: seq<Worker>, alert: Alert): nat {
    if workers == [] then 0 else Held(workers[0], alert) + InHand(workers[1..], alert)
  }

  /** How often the alert was answered. */
  function Replied(answered: seq<Answer>, alert: Alert): nat {
    if answered == [] then 0
    else
      var last := |answered| - 1;
      Replied(answered[..last], alert) + (if answered[last].alert == alert then 1 else 0)
  }

  ghost predicate SomeWorkerLives(st: State) {
    exists w :: 0 <= w < |st.workers| && !st.workers[w].Ended?
  }

  ghost predicate Inv(st: State) {
    && st.pushed == st.taken + st.queue
    && (forall a :: multiset(st.taken)[a] == Replied(st.answered, a) + InHand(st.workers, a))
    && (st.queue != [] ==> SomeWorkerLives(st))
  }

  lemma {:induction false} InHandUpdate(workers: seq<Worker>, w: nat, v: Worker, alert: Alert)
    requires w < |workers|
    ensures InHand(workers[w := v], alert) + Held(workers[w], alert) == InHand(workers, alert) + Held(v, alert)
  {
    if w > 0 {
      assert workers[w := v][1..] == workers[1..][w - 1 := v];
      InHandUpdate(workers[1..], w - 1, v, alert);
    } else {
      assert workers[w := v][1..] == workers[1..];
    }
  }

  lemma {:induction false} InHandSpawn(workers: seq<Worker>, alert: Alert)
    ensures InHand(workers + [Ready], alert) == InHand(workers, alert)
  {
    if workers != [] {
      assert (workers + [Ready])[1..] == workers[1..] + [Ready];
      InHandSpawn(workers[1..], alert);
    }
  }

  lemma SetKeeps(st: State, alert: Alert)
    requires Inv(st)
    ensures Inv(SetAlert(st, alert))
  {
    var st' := SetAlert(st, alert);
    if st.queue == [] {
      forall a ensures InHand(st'.workers, a) == InHand(st.workers, a) {
        InHandSpawn(st.workers, a);
      }
      assert st'.workers[|st.workers|].Ready?;
    }
  }

  lemma TakeKeeps(st: State, w: nat)
    requires Inv(st) && Enabled(st, DoTake(w))
    ensures Inv(Take(st, w))
  {
    var st' := Take(st, w);
    forall a ensures InHand(st'.workers, a) == InHand(st.workers, a) + Held(st'.workers[w], a) {
      InHandUpdate(st.workers, w, st'.workers[w], a);
    }
    if st.queue != [] {
      assert st.taken + st.queue == (st.taken + [st.queue[0]]) + st.queue[1..];
      assert st'.workers[w].Busy?;
    }
  }

  lemma ReplyKeeps(st: State, w: nat, success: bool)
    requires Inv(st) && Enabled(st, DoAnswer(w, success))
    ensures Inv(Reply(st, w, success))
  {
    var st' := Reply(st, w, success);
    forall a ensures InHand(st'.workers, a) + Held(st.workers[w], a) == InHand(st.workers, a) {
      InHandUpdate(st.workers, w, Ready, a);
    }
    assert st'.answered[..|st.answered|] == st.answered;
    assert st'.workers[w].Ready?;
  }

  lemma ApplyKeeps(st: State, step: Step)
    requires Inv(st)
    ensures Inv(Apply(st, step))
  {
    if Enabled(st, step) {
      match step
      case DoSet(alert) => SetKeeps(st, alert);
      case DoTake(w) => TakeKeeps(st, w);
      case DoAnswer(w, success) => ReplyKeeps(st, w, success);
    }
  }

  // ----- over every interleaving -----

  /** No alert is ever stranded: while the queue holds one, a worker that has not yet seen the
      queue empty lives.  Alerts are taken in the order they were pushed, none twice and none
      skipped, and every alert taken is with exactly one worker or answered exactly once. */
  lemma {:induction false} EveryInterleaving(st: State, steps: seq<Step>)
    requires Inv(st)
    ensures var end := After(st, steps);
            && (end.queue != [] ==> SomeWorkerLives(end))
            && end.taken <= end.pushed && end.queue == end.pushed[|end.taken|..]
            && (forall a :: multiset(end.pushed)[a] ==
                  Replied(end.answered, a) + InHand(end.workers, a) + multiset(end.queue)[a])
            && Inv(end)
    decreases |steps|
  {
    if steps != [] {
      ApplyKeeps(st, steps[0]);
      EveryInterleaving(Apply(st, steps[0]), steps[1..]);
    }
  }

  function Weight(workers: seq<Worker>): nat {
    if workers == [] then 0
    else (match workers[0] case Busy(_) => 2 case Ready => 1 case Ended => 0) + Weight(workers[1..])
  }

  lemma {:induction false} WeightUpdate(workers: seq<Worker>, w: nat, v: Worker)
    requires w < |workers|
    ensures Weight(workers[w := v]) + Weight([workers[w]]) == Weight(workers) + Weight([v])
  {
    if w > 0 {
      assert workers[w := v][1..] == workers[1..][w - 1 := v];
      WeightUpdate(workers[1..], w - 1, v);
    } else {
      assert workers[w := v][1..] == workers[1..];
    }
  }

  /** The work ahead of the workers alone. */
  function Ahead(st: State): nat { 2 * |st.queue| + Weight(st.workers) }

  /** A worker's step always brings the end nearer, and while an alert is queued or in hand
      some worker can step. */
  lemma WorkersProgress(st: State, step: Step)
    requires Inv(st)
    ensures !step.DoSet? && Enabled(st, step) ==> Ahead(Apply(st, step)) < Ahead(st)
    ensures st.queue != [] || (exists a :: InHand(st.workers, a) > 0) ==>
              exists s: Step :: !s.DoSet? && Enabled(st, s)
  {
    if !step.DoSet? && Enabled(st, step) {
      WeightUpdate(st.workers, step.w, Apply(st, step).workers[step.w]);
    }
    if st.queue != [] {
      var w :| 0 <= w < |st.workers| && !st.workers[w].Ended?;
      assert Enabled(st, if st.workers[w].Ready? then DoTake(w) else DoAnswer(w, true));
    } else if a :| InHand(st.workers, a) > 0 {
      var w := SomeoneHolds(st.workers, a);
      assert Enabled(st, DoAnswer(w, true));
    }
  }

  lemma {:induction false} SomeoneHolds(workers: seq<Worker>, alert: Alert) returns (w: nat)
    requires InHand(workers, alert) > 0
    ensures w < |workers| && workers[w] == Busy(alert)
  {
    if workers[0] == Busy(alert) {
      w := 0;
    } else {
      w := SomeoneHolds(workers[1..], alert);
      w := w + 1;
    }
  }

  /** Once every worker has ended, every alert ever pushed has been answered exactly as often
      as it was pushed. */
  lemma AllEndedAllAnswered(st: State)
    requires Inv(st)
    requires forall w :: 0 <= w < |st.workers| ==> st.workers[w].Ended?
    ensures st.queue == [] && st.taken == st.pushed
    ensures forall a :: Replied(st.answered, a) == multiset(st.pushed)[a]
  {
    forall a ensures InHand(st.workers, a) == 0 {
      if InHand(st.workers, a) > 0 {
        var w := SomeoneHolds(st.workers, a);
      }
    }
    assert st.pushed == st.taken;
  }
}

/** The handler's and the worker's critical sections on the linked queue. */
module AlertQueue {
  import opened Options
  import opened AlertList
  import Q = AlertQueueModel

  class Queue {
    const pending: List          // s_alert_queue
    var workers: seq<Q.Worker>   // those created so far
    var answered: seq<Q.Answer>  // SET_ALERT_SUCCESS and SET_ALERT_FAIL events
    ghost var m: Q.State

    ghost predicate Valid()
      reads this, pending, pending.head, pending.nodes
    {
      && pending.Valid()
      && pending.items == m.queue && workers == m.workers && answered == m.answered
      && Q.Inv(m)
    }

    constructor ()
      ensures Valid() && m == Q.Initial
    {
      pending := new List();
      workers, answered, m := [], [], Q.Initial;
    }

    /** The locked part of duer_dcs_tone_alert_set_handler. */
    method SetHandler(alert: Q.Alert)
      requires Valid()
      modifies this, pending, pending.head, pending.nodes
      ensures Valid() && m == Q.SetAlert(old(m), alert)
    {
      Q.SetKeeps(m, alert);
      var empty := pending.head.next == null;
      pending.Push(alert);
      if empty {
        workers := workers + [Q.Ready];
      }
      m := Q.SetAlert(m, alert);
    }

    method TakeFirst(w: nat, first: Node)
      requires Valid() && Q.Enabled(m, Q.DoTake(w)) && pending.head.next == first
      modifies this, pending, pending.head, pending.nodes
      ensures Valid() && m == Q.Take(old(m), w)
    {
      Q.TakeKeeps(m, w);
      var alert := first.data.value;
      var removed, at := pending.Remove(first);
      workers := workers[w := Q.Busy(alert)];
      m := Q.Take(m, w);
    }

    /** The locked part of duer_alert_thread: take the first alert, or end. */
    method Take(w: nat)
      requires Valid() && Q.Enabled(m, Q.DoTake(w))
      modifies this, pending, pending.head, pending.nodes
      ensures Valid() && m == Q.Take(old(m), w)
    {
      var first := pending.head.next;
      if first != null {
        TakeFirst(w, first);
      } else {
        Q.TakeKeeps(m, w);
        workers := workers[w := Q.Ended];
        m := Q.Take(m, w);
      }
    }

    /** The end of a worker's round: the alert was created, or it failed and is freed. */
    method Reply(w: nat, success: bool)
      requires Valid() && Q.Enabled(m, Q.DoAnswer(w, success))
      modifies `workers, `answered, `m
      ensures Valid() && m == Q.Reply(old(m), w, success)
    {
      Q.ReplyKeeps(m, w, success);
      answered := answered + [Q.Answer(workers[w].alert, success)];
      workers := workers[w := Q.Ready];
      m := Q.Reply(m, w, success);
    }
  }
}
