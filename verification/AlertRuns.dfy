/** The laws of alert ringing over every run of timer, player, worker and delete steps. */
module AlertRuns {
  import opened Options
  import opened AlertModel

  // ----- each handler keeps the invariant -----

  lemma {:induction false} StopEventCounts(list: seq<Rec>, id: nat)
    requires DistinctIds(list)
    ensures multiset(StopEvents(list))[Started(id)] == 0
    ensures multiset(StopEvents(list))[Stopped(id)] ==
            Unit(exists i :: 0 <= i < |list| && list[i].id == id && list[i].active)
  {
    if list != [] {
      var rest := list[1..];
      assert forall i :: 0 <= i < |rest| ==> rest[i] == list[i + 1];
      StopEventCounts(rest, id);
      var here := list[0].id == id && list[0].active;
      var later := exists i :: 0 <= i < |rest| && rest[i].id == id && rest[i].active;
      assert (exists i :: 0 <= i < |list| && list[i].id == id && list[i].active) <==> here || later by {
        if later {
          var i :| 0 <= i < |rest| && rest[i].id == id && rest[i].active;
          assert list[i + 1].id == id;
        }
        if i :| 0 <= i < |list| && list[i].id == id && list[i].active {
          assert i == 0 || rest[i - 1] == list[i];
        }
      }
    }
  }

  lemma PlayerStoppedKeeps(st: State)
    requires Inv(st)
    ensures Inv(PlayerStopped(st))
    ensures forall i :: 0 <= i < |PlayerStopped(st).list| ==> !PlayerStopped(st).list[i].active
  {
    var st' := PlayerStopped(st);
    forall id ensures Starts(st'.log, id) == Starts(st.log, id)
      ensures Stops(st'.log, id) == Stops(st.log, id) +
              Unit(exists i :: 0 <= i < |st.list| && st.list[i].id == id && st.list[i].active)
    {
      StopEventCounts(st.list, id);
    }
    forall id | id in st'.armed ensures id in st'.early || IndexOfId(st'.list, id).Some? {
      if id !in st.early {
        assert st'.list[IndexOfId(st.list, id).value].id == id;
      }
    }
  }

  /** Rewriting one listed record, with its id and the other records kept. */
  lemma UpdatedList(st: State, i: nat, r: Rec)
    requires Inv(st) && i < |st.list| && r.id == st.list[i].id && r.Ok()
    ensures var list := st.list[i := r];
            && DistinctIds(list)
            && (forall id :: IndexOfId(list, id).Some? <==> IndexOfId(st.list, id).Some?)
            && (forall id :: id != r.id ==> IsActive(st.(list := list), id) == IsActive(st, id))
            && IsActive(st.(list := list), r.id) == r.active
            && IsActive(st, r.id) == st.list[i].active
  {
    var list := st.list[i := r];
    assert list[i].id == r.id;
    forall id ensures IndexOfId(list, id).Some? <==> IndexOfId(st.list, id).Some? {
      assert forall k :: 0 <= k < |list| ==> list[k].id == st.list[k].id;
    }
    forall id | id != r.id ensures IsActive(st.(list := list), id) == IsActive(st, id) {
      assert forall k :: 0 <= k < |list| && list[k].id == id ==> list[k] == st.list[k];
    }
  }

  lemma RingNextKeeps(st: State)
    requires Inv(st.(ringing := None)) && (st.ringing.Some? ==> st.ringing.value < |st.list|)
    ensures Inv(RingNext(st, st.list, st.log))
  {
    var st' := RingNext(st, st.list, st.log);
    var base := st.(ringing := None);
    assert forall id :: IsActive(st', id) == IsActive(base, id);
  }

  /** Silencing a listed alert together with its report, or touching only its counters. */
  lemma UpdateKeeps(st: State, i: nat, r: Rec, log: seq<Event>)
    requires Inv(st) && i < |st.list| && st.list[i].active
    requires r.id == st.list[i].id && r.Ok()
    requires log == if r.active then st.log else st.log + [Stopped(r.id)]
    ensures Inv(st.(list := st.list[i := r], log := log, ringing := None))
  {
    UpdatedList(st, i, r);
    var st' := st.(list := st.list[i := r], log := log, ringing := None);
    var mid := st.(list := st.list[i := r]);
    assert forall id :: IsActive(st', id) == IsActive(mid, id);
    assert r.id !in st.armed;
  }

  lemma QuietKeeps(st: State, e: Event)
    requires Inv(st) && !e.Started? && !e.Stopped?
    ensures Inv(st.(log := st.log + [e]))
  {
    var st' := st.(log := st.log + [e]);
    assert forall id :: IsActive(st', id) == IsActive(st, id);
  }

  lemma PlayerFinishedKeeps(st: State)
    requires Inv(st)
    ensures Inv(PlayerFinished(st))
  {
    if st.ringing.None? {
      RingNextKeeps(st);
    } else {
      var i := st.ringing.value;
      var r := Advance(st.list[i]);
      var log := if r.active then st.log else st.log + [Stopped(r.id)];
      UpdateKeeps(st, i, r, log);
      var mid := st.(list := st.list[i := r], log := log);
      if st.list[i].toneIndex + 1 < |st.list[i].tones| {
        QuietKeeps(mid.(ringing := None), Play(r.tones[r.toneIndex]));
        var quiet := mid.(ringing := None, log := mid.log + [Play(r.tones[r.toneIndex])]);
        assert forall id :: IsActive(PlayerFinished(st), id) == IsActive(quiet, id);
      } else {
        RingNextKeeps(mid);
      }
    }
  }

  lemma PlayerErrorKeeps(st: State, ringingTune: bool)
    requires Inv(st)
    ensures Inv(PlayerError(st, ringingTune))
  {
    if !ringingTune {
      QuietKeeps(st, Play(DEFAULT_TUNE));
    } else if st.ringing.None? {
      RingNextKeeps(st);
    } else {
      var i := st.ringing.value;
      var r := st.list[i].(active := false);
      UpdateKeeps(st, i, r, st.log + [Stopped(r.id)]);
      RingNextKeeps(st.(list := st.list[i := r], log := st.log + [Stopped(r.id)]));
    }
  }

  lemma ArmKeeps(st: State, r: Rec)
    requires Inv(st) && Enabled(st, DoArm(r))
    ensures Inv(Arm(st, r))
  {
    var st' := Arm(st, r);
    assert forall id :: IsActive(st', id) == IsActive(st, id);
  }

  lemma PushKeeps(st: State, id: nat)
    requires Inv(st) && id in st.early
    ensures Inv(Push(st, id))
  {
    var st' := Push(st, id);
    var n := |st.list|;
    assert st'.list[n].id == id;
    forall k ensures IsActive(st', k) == IsActive(st, k) {
      assert forall i :: 0 <= i < n ==> st'.list[i] == st.list[i];
    }
    forall k | k in st'.armed ensures k in st'.early || IndexOfId(st'.list, k).Some? {
      if k != id && k !in st.early {
        assert st'.list[IndexOfId(st.list, k).value].id == k;
      }
    }
  }

  lemma EarlyTimerFiresKeeps(st: State, id: nat)
    requires Inv(st) && id in st.armed && id in st.early
    ensures Inv(TimerFires(st, id))
  {
    var st' := TimerFires(st, id);
    assert Starts(st.log, id) == 0;
    assert forall k :: k != id ==> IsActive(st', k) == IsActive(st, k);
    assert !IsActive(st, id) && IsActive(st', id);
  }

  /** The balance survives a step whose reports match the change of activity of one alert. */
  lemma BalanceMoves(st: State, st': State, id: nat, before: bool, after: bool)
    requires Balanced(st)
    requires forall k :: k != id ==> IsActive(st', k) == IsActive(st, k)
    requires IsActive(st, id) == before && IsActive(st', id) == after
    requires forall k :: Starts(st'.log, k) == Starts(st.log, k) + Unit(k == id && !before && after)
    requires forall k :: Stops(st'.log, k) == Stops(st.log, k) + Unit(k == id && before && !after)
    requires !before && after ==> id in st.armed && id in st.used
    requires st'.armed <= st.armed && st.used == st'.used
    requires after ==> id !in st'.armed
    ensures Balanced(st')
  {
  }

  lemma ListedTimerFiresKeeps(st: State, id: nat)
    requires Inv(st) && id in st.armed && id !in st.early
    ensures Inv(TimerFires(st, id))
  {
    var st' := TimerFires(st, id);
    var i := IndexOfId(st.list, id).value;
    var r := st.list[i].(active := true);
    UpdatedList(st, i, r);
    var mid := st.(list := st.list[i := r]);
    assert forall k :: IsActive(st', k) == IsActive(mid, k);
    ListedTimerFiresShape(st, st', i);
    BalanceMoves(st, st', id, false, true);
  }

  lemma ListedTimerFiresShape(st: State, st': State, i: nat)
    requires Shape(st) && TimersFresh(st)
    requires i < |st.list| && st.list[i].id in st.armed && st.list[i].id !in st.early
    requires st'.list == st.list[i := st.list[i].(active := true)] && st'.early == st.early
    requires st'.armed == st.armed - {st.list[i].id} && st'.used == st.used
    requires st'.ringing == if st.ringing.Some? then st.ringing else Some(i)
    ensures Shape(st') && TimersFresh(st')
  {
    forall k | IndexOfId(st.list, k).Some? ensures IndexOfId(st'.list, k).Some? {
      assert st'.list[IndexOfId(st.list, k).value].id == k;
    }
  }

  lemma TimerFiresKeeps(st: State, id: nat)
    requires Inv(st) && id in st.armed
    ensures Inv(TimerFires(st, id))
  {
    if id in st.early {
      EarlyTimerFiresKeeps(st, id);
    } else {
      ListedTimerFiresKeeps(st, id);
    }
  }

  lemma {:induction false} DeleteKeepsShape(st: State, token: string, j: nat)
    requires Inv(st) && IndexOfToken(st.list, token) == Some(j)
    ensures Shape(Delete(st, token)) && TimersFresh(Delete(st, token))
  {
    DeleteKeepsFresh(st, token, j);
    WithoutIndexItems(st.list, j);
    DeleteKeepsArmed(st, token, j);
  }

  lemma {:induction false} DeleteKeepsFresh(st: State, token: string, j: nat)
    requires Inv(st) && IndexOfToken(st.list, token) == Some(j)
    ensures TimersFresh(Delete(st, token))
  {
    WithoutIndexItems(st.list, j);
  }

  lemma {:induction false} DeleteKeepsArmed(st: State, token: string, j: nat)
    requires Inv(st) && IndexOfToken(st.list, token) == Some(j)
    ensures var st' := Delete(st, token);
      forall k :: k in st'.armed ==> k in st'.early || IndexOfId(st'.list, k).Some?
  {
    var st' := Delete(st, token);
    WithoutIndexItems(st.list, j);
    forall k | k in st'.armed ensures k in st'.early || IndexOfId(st'.list, k).Some? {
      if k !in st.early {
        var i := IndexOfId(st.list, k).value;
        assert st'.list[if i < j then i else i - 1].id == k;
      }
    }
  }

  lemma DeleteKeepsActivity(st: State, token: string, j: nat)
    requires Inv(st) && IndexOfToken(st.list, token) == Some(j)
    ensures forall k :: k != st.list[j].id ==> IsActive(Delete(st, token), k) == IsActive(st, k)
    ensures IsActive(st, st.list[j].id) == st.list[j].active
    ensures !IsActive(Delete(st, token), st.list[j].id)
  {
    var st' := Delete(st, token);
    var r := st.list[j];
    WithoutIndexItems(st.list, j);
    forall k | k != r.id ensures IsActive(st', k) == IsActive(st, k) {
      if i :| 0 <= i < |st.list| && st.list[i].id == k && st.list[i].active {
        assert st'.list[if i < j then i else i - 1] == st.list[i];
      }
    }
  }

  lemma DeleteReports(st: State, token: string, j: nat)
    requires IndexOfToken(st.list, token) == Some(j)
    ensures forall k :: Starts(Delete(st, token).log, k) == Starts(st.log, k)
    ensures forall k :: Stops(Delete(st, token).log, k) ==
              Stops(st.log, k) + Unit(k == st.list[j].id && st.list[j].active)
  {
  }

  lemma DeleteKeeps(st: State, token: string)
    requires Inv(st)
    ensures Inv(Delete(st, token))
  {
    var found := IndexOfToken(st.list, token);
    if found.None? {
      QuietKeeps(st, DeleteFailed(token));
    } else {
      DeleteKeepsShape(st, token, found.value);
      DeleteKeepsActivity(st, token, found.value);
      DeleteReports(st, token, found.value);
      var r := st.list[found.value];
      assert Balanced(Delete(st, token)) by {
        BalanceMoves(st, Delete(st, token), r.id, r.active, false);
      }
    }
  }

  lemma WithoutIndexItems(s: seq<Rec>, j: nat)
    requires j < |s|
    ensures |WithoutIndex(s, j)| == |s| - 1
    ensures forall i :: 0 <= i < |s| - 1 ==> WithoutIndex(s, j)[i] == s[if i < j then i else i + 1]
  {
  }

  lemma ApplyKeeps(st: State, step: Step)
    requires Inv(st)
    ensures Inv(Apply(st, step))
  {
    if Enabled(st, step) {
      match step
      case DoArm(r) => ArmKeeps(st, r);
      case DoPush(id) => PushKeeps(st, id);
      case DoTimer(id) => TimerFiresKeeps(st, id);
      case DoStop => PlayerStoppedKeeps(st);
      case DoFinish => PlayerFinishedKeeps(st);
      case DoError(ringingTune) => PlayerErrorKeeps(st, ringingTune);
      case DoDelete(token) => DeleteKeeps(st, token);
    }
  }

  ghost function After(st: State, steps: seq<Step>): (r: State)
    requires Inv(st)
    ensures Inv(r)
    decreases |steps|
  {
    if steps == [] then st
    else
      ApplyKeeps(st, steps[0]);
      After(Apply(st, steps[0]), steps[1..])
  }

  // ----- starts come before stops in the log itself -----

  /** At no moment has an alert been reported stopped more often than started. */
  ghost predicate Ordered(log: seq<Event>) {
    forall n, id :: 0 <= n <= |log| ==> Stops(log[..n], id) <= Starts(log[..n], id)
  }

  lemma PrefixCounts(log: seq<Event>, n: nat, e: Event)
    requires n <= |log|
    ensures multiset(log[..n])[e] <= multiset(log)[e]
  {
    assert log == log[..n] + log[n..];
  }

  lemma ExtendOrdered(log: seq<Event>, more: seq<Event>)
    requires Ordered(log)
    requires forall id :: Stops(log + more, id) <= Starts(log + more, id)
    requires (forall e :: e in more ==> !e.Started?) || (forall e :: e in more ==> !e.Stopped?)
    ensures Ordered(log + more)
  {
    var all := log + more;
    forall n, id | 0 <= n <= |all| ensures Stops(all[..n], id) <= Starts(all[..n], id) {
      if n <= |log| {
        assert all[..n] == log[..n];
      } else {
        var part := more[..n - |log|];
        assert all[..n] == log + part;
        assert log[..|log|] == log;
        if e :| e in more && e.Started? {
          assert Stopped(id) !in more;
          assert forall x :: x in part ==> x in more;
          assert Stops(log[..|log|], id) <= Starts(log[..|log|], id);
        } else {
          assert Started(id) !in more;
          PrefixCounts(more, n - |log|, Stopped(id));
          assert Starts(all, id) == Starts(log, id);
        }
      }
    }
  }

  lemma {:induction false} StopEventsAreStops(list: seq<Rec>)
    ensures forall e :: e in StopEvents(list) ==> e.Stopped?
  {
    if list != [] {
      StopEventsAreStops(list[1..]);
    }
  }

  lemma {:induction false} LogGrows(st: State, step: Step)
    requires Inv(st)
    ensures st.log <= Apply(st, step).log
    ensures |st.log| <= |Apply(st, step).log|
  {
  }

  lemma {:induction false} TimerStopsNothing(st: State, id: nat)
    requires Inv(st)
    ensures |st.log| <= |Apply(st, DoTimer(id)).log|
    ensures forall e :: e in Apply(st, DoTimer(id)).log[|st.log|..] ==> !e.Stopped?
  {
  }

  lemma {:induction false} OthersStartNothing(st: State, step: Step)
    requires Inv(st) && !step.DoTimer?
    ensures |st.log| <= |Apply(st, step).log|
    ensures forall e :: e in Apply(st, step).log[|st.log|..] ==> !e.Started?
  {
    match step {
      case DoStop => StopEventsAreStops(st.list);
      case DoFinish => PlayerStartsNothing(st, false);
      case DoError(ringingTune) => PlayerStartsNothing(st, ringingTune);
      case _ =>
    }
  }

  lemma {:induction false} PlayerStartsNothing(st: State, ringingTune: bool)
    requires Inv(st)
    ensures var n, finished, failed := |st.log|, PlayerFinished(st).log, PlayerError(st, ringingTune).log;
      && n <= |finished| && (forall e :: e in finished[n..] ==> !e.Started?)
      && n <= |failed| && forall e :: e in failed[n..] ==> !e.Started?
  {
  }

  /** Each step appends to the log, and never both a start and a stop. */
  lemma {:induction false} StepReports(st: State, step: Step) returns (more: seq<Event>)
    requires Inv(st)
    ensures Apply(st, step).log == st.log + more
    ensures (forall e :: e in more ==> !e.Started?) || (forall e :: e in more ==> !e.Stopped?)
  {
    LogGrows(st, step);
    more := Apply(st, step).log[|st.log|..];
    if step.DoTimer? {
      TimerStopsNothing(st, step.id);
    } else {
      OthersStartNothing(st, step);
    }
  }

  /** Over every run: the ringing alert is a listed, active one; every alert has been reported
      started once more than stopped exactly while it is active, and at most once in all; and
      no stop was ever reported before its start. */
  lemma {:induction false} EveryRunIsBalanced(st: State, steps: seq<Step>)
    requires Inv(st) && Ordered(st.log)
    ensures var end := After(st, steps);
            && (end.ringing.Some? ==> end.ringing.value < |end.list| && end.list[end.ringing.value].active)
            && (forall id :: Starts(end.log, id) - Stops(end.log, id) == if IsActive(end, id) then 1 else 0)
            && (forall id :: Starts(end.log, id) <= 1)
            && Ordered(end.log)
    decreases |steps|
  {
    if steps != [] {
      var st' := Apply(st, steps[0]);
      ApplyKeeps(st, steps[0]);
      var more := StepReports(st, steps[0]);
      ExtendOrdered(st.log, more);
      EveryRunIsBalanced(st', steps[1..]);
    }
  }

  lemma InitialIsBalanced()
    ensures Inv(Initial) && Ordered(Initial.log)
  {
  }

  // ----- ringing terminates -----

  /** Plays still owed by the listed alerts. */
  ghost function Work(list: seq<Rec>): nat
    requires AllOk(list)
  {
    if list == [] then 0 else list[0].Remaining() + Work(list[1..])
  }

  lemma {:induction false} WorkOfConcat(a: seq<Rec>, b: seq<Rec>)
    requires AllOk(a) && AllOk(b)
    ensures AllOk(a + b) && Work(a + b) == Work(a) + Work(b)
  {
    if a == [] {
      assert a + b == b;
    } else {
      assert (a + b)[1..] == a[1..] + b;
      WorkOfConcat(a[1..], b);
    }
  }

  lemma WorkOfUpdate(list: seq<Rec>, i: nat, r: Rec)
    requires AllOk(list) && i < |list| && r.Ok()
    ensures AllOk(list[i := r])
    ensures Work(list[i := r]) - Work(list) == r.Remaining() - list[i].Remaining()
    ensures Work(WithoutIndex(list, i)) == Work(list) - list[i].Remaining()
  {
    WorkOfConcat(list[..i], list[i + 1..]);
    WorkOfConcat([list[i]], list[i + 1..]);
    WorkOfConcat([r], list[i + 1..]);
    WorkOfConcat(list[..i], [list[i]] + list[i + 1..]);
    WorkOfConcat(list[..i], [r] + list[i + 1..]);
    assert list == list[..i] + ([list[i]] + list[i + 1..]);
    assert list[i := r] == list[..i] + ([r] + list[i + 1..]);
  }

  lemma AdvanceWork(r: Rec)
    requires r.Ok() && r.active
    ensures Advance(r).Ok() && Advance(r).Remaining() == r.Remaining() - 1
  {
    var p := r.Period();
    if r.toneIndex + 1 >= |r.tones| && r.loopCount > 1 {
      assert (r.loopCount - 1) * p == (r.loopCount - 2) * p + p;
    }
  }

  lemma {:induction false} WorkOfSilent(list: seq<Rec>)
    requires AllOk(list)
    ensures Work(list) == 0 <==> forall i :: 0 <= i < |list| ==> !list[i].active
  {
    if list != [] {
      WorkOfSilent(list[1..]);
      assert list[0].active ==> list[0].Remaining() > 0;
      assert forall i :: 1 <= i < |list| ==> list[i] == list[1..][i - 1];
    }
  }

  /** What a step adds to the work: a listed alert that starts, or one pushed while sounding. */
  ghost function Granted(st: State, step: Step): nat
    requires Inv(st)
  {
    if !Enabled(st, step) then 0 else
    match step
    case DoTimer(id) =>
      if id in st.early then 0
      else
        var r := st.list[IndexOfId(st.list, id).value];
        r.loopCount * r.Period()
    case DoPush(id) => st.early[id].Remaining()
    case _ => 0
  }

  predicate RingingFinish(st: State, step: Step) {
    step.DoFinish? && st.ringing.Some?
  }

  lemma WorkOfStart(r: Rec)
    requires r.Ok() && !r.active && r.loopCount >= 1 && r.toneIndex == 0
    ensures r.(active := true).Remaining() == r.loopCount * r.Period()
  {
    assert (r.loopCount - 1) * r.Period() == r.loopCount * r.Period() - r.Period();
  }

  lemma WorkFinished(st: State)
    requires Inv(st)
    ensures Inv(PlayerFinished(st))
    ensures Work(PlayerFinished(st).list) == Work(st.list) - Unit(st.ringing.Some?)
  {
    PlayerFinishedKeeps(st);
    if st.ringing.Some? {
      var i := st.ringing.value;
      AdvanceWork(st.list[i]);
      WorkOfUpdate(st.list, i, Advance(st.list[i]));
    }
  }

  lemma WorkStarted(st: State, id: nat)
    requires Inv(st) && id in st.armed
    ensures Inv(TimerFires(st, id))
    ensures Work(TimerFires(st, id).list) == Work(st.list) + Granted(st, DoTimer(id))
  {
    TimerFiresKeeps(st, id);
    if id !in st.early {
      var i := IndexOfId(st.list, id).value;
      WorkOfUpdate(st.list, i, st.list[i].(active := true));
      WorkOfStart(st.list[i]);
    }
  }

  lemma WorkFailed(st: State, ringingTune: bool)
    requires Inv(st)
    ensures Inv(PlayerError(st, ringingTune))
    ensures Work(PlayerError(st, ringingTune).list) <= Work(st.list)
  {
    PlayerErrorKeeps(st, ringingTune);
    if ringingTune && st.ringing.Some? {
      WorkOfUpdate(st.list, st.ringing.value, st.list[st.ringing.value].(active := false));
    }
  }

  lemma WorkDeleted(st: State, token: string)
    requires Inv(st)
    ensures Inv(Delete(st, token))
    ensures Work(Delete(st, token).list) <= Work(st.list)
  {
    DeleteKeeps(st, token);
    var j := IndexOfToken(st.list, token);
    if j.Some? {
      WorkOfUpdate(st.list, j.value, st.list[j.value]);
    }
  }

  lemma WorkPushed(st: State, id: nat)
    requires Inv(st) && id in st.early
    ensures Inv(Push(st, id))
    ensures Work(Push(st, id).list) == Work(st.list) + Granted(st, DoPush(id))
  {
    PushKeeps(st, id);
    WorkOfConcat(st.list, [st.early[id]]);
  }

  /** One finished play of the ringing alert pays off exactly one unit of work; a stop, an
      error, a delete or any other finish never adds work; starts add exactly what is granted. */
  lemma WorkStep(st: State, step: Step)
    requires Inv(st)
    ensures Inv(Apply(st, step))
    ensures Work(Apply(st, step).list) + Unit(RingingFinish(st, step)) <= Work(st.list) + Granted(st, step)
    ensures step.DoFinish? || step.DoTimer? || step.DoPush? || step.DoArm? ==>
              Work(Apply(st, step).list) + Unit(RingingFinish(st, step)) == Work(st.list) + Granted(st, step)
  {
    ApplyKeeps(st, step);
    if Enabled(st, step) {
      match step
      case DoArm(r) =>
      case DoPush(id) => WorkPushed(st, id);
      case DoTimer(id) => WorkStarted(st, id);
      case DoStop => WorkOfSilent(PlayerStopped(st).list);
      case DoFinish => WorkFinished(st);
      case DoError(ringingTune) => WorkFailed(st, ringingTune);
      case DoDelete(token) => WorkDeleted(st, token);
    }
  }

  ghost function RingingFinishes(st: State, steps: seq<Step>): nat
    requires Inv(st)
    decreases |steps|
  {
    if steps == [] then 0
    else
      ApplyKeeps(st, steps[0]);
      Unit(RingingFinish(st, steps[0])) + RingingFinishes(Apply(st, steps[0]), steps[1..])
  }

  ghost function TotalGranted(st: State, steps: seq<Step>): nat
    requires Inv(st)
    decreases |steps|
  {
    if steps == [] then 0
    else
      ApplyKeeps(st, steps[0]);
      Granted(st, steps[0]) + TotalGranted(Apply(st, steps[0]), steps[1..])
  }

  /** In every run the plays finished while ringing never exceed the loops times tones of the
      alerts that started, less the work still owed. */
  lemma {:induction false} RingingIsBounded(st: State, steps: seq<Step>)
    requires Inv(st)
    ensures RingingFinishes(st, steps) + Work(After(st, steps).list) <= Work(st.list) + TotalGranted(st, steps)
    decreases |steps|
  {
    if steps != [] {
      WorkStep(st, steps[0]);
      RingingIsBounded(Apply(st, steps[0]), steps[1..]);
    }
  }

  // ----- an active list rings -----

  ghost predicate SomeActive(list: seq<Rec>) {
    exists i :: 0 <= i < |list| && list[i].active
  }

  /** While a listed alert is active, one rings. */
  ghost predicate Rings(st: State) {
    SomeActive(st.list) ==> st.ringing.Some?
  }

  /** The two steps after which nothing rings although a listed alert is active: the ringing alert
      is deleted while another one is active, or an alert is pushed whose timer has fired before
      while nothing rings. */
  ghost predicate Mutes(st: State, step: Step) {
    || (step.DoDelete? && st.ringing.Some? && IndexOfToken(st.list, step.token) == st.ringing &&
        exists k :: 0 <= k < |st.list| && k != st.ringing.value && st.list[k].active)
    || (step.DoPush? && step.id in st.early && st.early[step.id].active && st.ringing.None?)
  }

  lemma {:induction false} DeleteMutesIff(st: State, token: string)
    requires Inv(st) && Rings(st)
    ensures Rings(Delete(st, token)) <==> !Mutes(st, DoDelete(token))
  {
    var at := IndexOfToken(st.list, token);
    if at.Some? {
      var list, j := WithoutIndex(st.list, at.value), at.value;
      if k :| 0 <= k < |st.list| && k != j && st.list[k].active {
        assert list[if k < j then k else k - 1] == st.list[k];
      }
      if SomeActive(list) {
        var i :| 0 <= i < |list| && list[i].active;
        assert list[i] == st.list[if i < j then i else i + 1];
      }
    }
  }

  lemma {:induction false} PushMutesIff(st: State, id: nat)
    requires Inv(st) && Rings(st) && id in st.early
    ensures Rings(Push(st, id)) <==> !Mutes(st, DoPush(id))
  {
    var list := st.list + [st.early[id]];
    assert list[|st.list|] == st.early[id];
    if i :| 0 <= i < |st.list| && st.list[i].active {
      assert list[i] == st.list[i];
    }
    if SomeActive(list) && !st.early[id].active {
      var i :| 0 <= i < |list| && list[i].active;
      assert list[i] == st.list[i];
    }
  }

  /** A step leaves an active list without a ringing alert if and only if it is one of those two. */
  lemma {:induction false} RingsUnlessMuted(st: State, step: Step)
    requires Inv(st) && Rings(st)
    ensures Rings(Apply(st, step)) <==> !Mutes(st, step)
  {
    if Enabled(st, step) {
      match step {
        case DoPush(id) => PushMutesIff(st, id);
        case DoDelete(token) => DeleteMutesIff(st, token);
        case DoFinish => NextRings(st);
        case DoError(ringingTune) => NextRings(st);
        case _ =>
      }
    }
  }

  lemma {:induction false} AfterThree(st: State, a: Step, b: Step, c: Step)
    requires Inv(st)
    ensures Inv(Apply(st, a)) && Inv(Apply(Apply(st, a), b))
    ensures After(st, [a, b, c]) == Apply(Apply(Apply(st, a), b), c)
  {
    ApplyKeeps(st, a);
    ApplyKeeps(Apply(st, a), b);
    ApplyKeeps(Apply(Apply(st, a), b), c);
    assert [a, b, c][1..] == [b, c] && [b, c][1..] == [c] && [c][1..] == [];
    assert After(Apply(Apply(Apply(st, a), b), c), []) == Apply(Apply(Apply(st, a), b), c);
    assert After(Apply(Apply(st, a), b), [c]) == Apply(Apply(Apply(st, a), b), c);
  }

  const ONE_ALERT := Rec(0, "A", [], 1, 0, false)
  const SOUNDING := ONE_ALERT.(active := true)

  lemma {:induction false} FiresEarly()
    ensures Inv(Initial)
    ensures Apply(Initial, DoArm(ONE_ALERT)) == State([], map[0 := ONE_ALERT], None, {0}, {0}, [])
    ensures Inv(Apply(Initial, DoArm(ONE_ALERT)))
    ensures Apply(Apply(Initial, DoArm(ONE_ALERT)), DoTimer(0))
         == State([], map[0 := SOUNDING], None, {}, {0}, [Started(0)])
  {
    InitialIsBalanced();
    ApplyKeeps(Initial, DoArm(ONE_ALERT));
    assert Apply(Initial, DoArm(ONE_ALERT)) == Arm(Initial, ONE_ALERT);
    assert map[0 := ONE_ALERT][0 := SOUNDING] == map[0 := SOUNDING];
  }

  /** From the start: an alert whose timer fires before the worker has pushed it is listed, active
      and reported as started, but none rings and no play has been asked for. */
  lemma {:induction false} ExampleMuted()
    ensures Inv(Initial)
    ensures var st := After(Initial, [DoArm(ONE_ALERT), DoTimer(0), DoPush(0)]);
            && st == State([SOUNDING], map[], None, {}, {0}, [Started(0), SetSuccess(0)])
            && st.list[0].active && !Rings(st)
  {
    FiresEarly();
    AfterThree(Initial, DoArm(ONE_ALERT), DoTimer(0), DoPush(0));
    var st := State([SOUNDING], map[], None, {}, {0}, [Started(0), SetSuccess(0)]);
    assert map[0 := SOUNDING] - {0} == map[];
    assert st.list[0].active;
  }

  /** A search for the next alert finds one if there is one. */
  lemma {:induction false} NextRings(st: State)
    requires Inv(st)
    ensures Rings(PlayerFinished(st)) && Rings(PlayerError(st, true))
  {
    var done, failed := PlayerFinished(st), PlayerError(st, true);
    NextActiveIsCyclicSuccessor(done.list, st.ringing);
    NextActiveIsCyclicSuccessor(failed.list, st.ringing);
  }

  lemma {:induction false} OwesWhileRinging(st: State)
    requires Inv(st) && Rings(st)
    ensures st.ringing.Some? <==> Work(st.list) > 0
    ensures Work(st.list) == 0 ==> forall i :: 0 <= i < |st.list| ==> !st.list[i].active
  {
    WorkOfSilent(st.list);
  }

  lemma {:induction false} OneFinish(st: State)
    requires Inv(st) && Rings(st) && Work(st.list) > 0
    ensures var next := Apply(st, DoFinish);
      Inv(next) && Rings(next) && Work(next.list) == Work(st.list) - 1
  {
    OwesWhileRinging(st);
    WorkFinished(st);
    NextRings(st);
    ApplyKeeps(st, DoFinish);
  }

  /** Left alone, a list in which one rings falls silent after exactly as many finished plays as it
      owes, and it keeps ringing until then. */
  lemma {:induction false} FinishesDrain(st: State, n: nat)
    requires Inv(st) && Rings(st) && n <= Work(st.list)
    ensures var end := After(st, seq(n, _ => DoFinish));
            && Work(end.list) == Work(st.list) - n
            && (end.ringing.Some? <==> n < Work(st.list))
            && (n == Work(st.list) ==> forall i :: 0 <= i < |end.list| ==> !end.list[i].active)
    decreases n
  {
    if n == 0 {
      OwesWhileRinging(st);
    } else {
      var steps := seq(n, _ => DoFinish);
      assert steps[1..] == seq(n - 1, _ => DoFinish);
      OneFinish(st);
      FinishesDrain(Apply(st, DoFinish), n - 1);
    }
  }
}
