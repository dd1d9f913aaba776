/** The alarms of AlarmService on values.  Dates are seconds on one line; the poll at second
    `now` sees the difference of `now` and the second before the date. */
module AlarmModel {
  /** `at` is the date, `period` 0 for an absolute alarm.  `heard`: there is a callback. */
  datatype Alarm = Alarm(handle: nat, periodic: bool, at: int, period: int, running: bool, heard: bool)

  /** computeTimeDifference and diffTime */
  function Difference(at: int, now: int): int {
    now - (at - 1)
  }

  /** alarmTrigger reports this alarm. */
  predicate Triggers(a: Alarm, now: int) {
    0 < Difference(a.at, now) < 3
  }

  predicate Calls(a: Alarm, now: int) {
    Triggers(a, now) && a.heard && a.running
  }

  /** alarmTrigger and the round of PollTimerCallback for one alarm. */
  function Polled(a: Alarm, now: int): Alarm {
    if !Triggers(a, now) then a
    else if a.periodic then a.(at := a.at + a.period)
    else if Calls(a, now) then a.(running := false)
    else a
  }

  /** The handles whose callbacks are called, in list order. */
  function CallsOf(list: seq<Alarm>, now: int, n: nat): seq<nat>
    requires n <= |list|
  {
    if n == 0 then []
    else CallsOf(list, now, n - 1) + (if Calls(list[n - 1], now) then [list[n - 1].handle] else [])
  }

  /** The alarms for which that is so. */
  function Calling(list: seq<Alarm>, now: int): seq<Alarm> {
    if list == [] then []
    else (if Calls(list[0], now) then [list[0]] else []) + Calling(list[1..], now)
  }

  function Handles(list: seq<Alarm>): seq<nat> {
    seq(|list|, i requires 0 <= i < |list| => list[i].handle)
  }

  lemma {:induction false} CallsOfCalling(list: seq<Alarm>, now: int, n: nat)
    requires n <= |list|
    ensures CallsOf(list, now, n) + Handles(Calling(list[n..], now)) == CallsOf(list, now, |list|)
    decreases |list| - n
  {
    if n == |list| {
      assert Handles([]) == [] && CallsOf(list, now, n) + [] == CallsOf(list, now, n);
    } else {
      CallsOfCalling(list, now, n + 1);
      assert list[n..][1..] == list[n + 1..];
      var one := if Calls(list[n], now) then [list[n].handle] else [];
      assert Handles(Calling(list[n..], now)) == one + Handles(Calling(list[n + 1..], now));
      assert (CallsOf(list, now, n) + one) + Handles(Calling(list[n + 1..], now))
          == CallsOf(list, now, n) + (one + Handles(Calling(list[n + 1..], now)));
    }
  }

  /** A poll calls back exactly the alarms of the list that are due, running and have a callback, once
      each, in list order. */
  lemma CallsInOrder(list: seq<Alarm>, now: int)
    ensures CallsOf(list, now, |list|) == Handles(Calling(list, now))
    ensures forall i :: 0 <= i < |list| ==>
              (Calls(list[i], now) <==> list[i].at <= now <= list[i].at + 1 && list[i].running && list[i].heard)
  {
    CallsOfCalling(list, now, 0);
    assert [] + Handles(Calling(list, now)) == Handles(Calling(list, now)) && list[0..] == list;
  }

  /** The alarm after the first n polls. */
  function AfterPolls(a: Alarm, polls: seq<int>, n: nat): Alarm
    requires n <= |polls|
  {
    if n == 0 then a else Polled(AfterPolls(a, polls, n - 1), polls[n - 1])
  }

  /** The seconds at which the callback is called in the first n polls. */
  function Fired(a: Alarm, polls: seq<int>, n: nat): seq<int>
    requires n <= |polls|
  {
    if n == 0 then []
    else
      var now := polls[n - 1];
      Fired(a, polls, n - 1) + (if Calls(AfterPolls(a, polls, n - 1), now) then [now] else [])
  }

  /** The second before poll n: the poll before it, or the start. */
  function Last(since: int, polls: seq<int>, n: nat): int
    requires n <= |polls|
  {
    if n == 0 then since else polls[n - 1]
  }

  predicate Increasing(since: int, polls: seq<int>) {
    (forall i :: 0 <= i < |polls| ==> since < polls[i])
    && forall i, j :: 0 <= i < j < |polls| ==> polls[i] < polls[j]
  }

  predicate GapsWithin(since: int, polls: seq<int>, gap: int) {
    (polls != [] ==> polls[0] <= since + gap)
    && forall i, j :: 0 <= i && j == i + 1 < |polls| ==> polls[j] <= polls[i] + gap
  }

  /** Each occurrence that is due has fired once, in its second or the next. */
  ghost predicate OnTime(a: Alarm, polls: seq<int>) {
    var fired := Fired(a, polls, |polls|);
    && (forall k :: 0 <= k < |fired| ==> a.at + k * a.period <= fired[k] <= a.at + k * a.period + 1)
    && (polls != [] ==> polls[|polls| - 1] < a.at + |fired| * a.period)
  }

  /** Periodic, running, and with a callback. */
  predicate Live(a: Alarm) {
    a.periodic && a.running && a.heard
  }

  /** How far apart polls may be: as far as the window and the period reach. */
  function Reach(period: int): int {
    if period < 2 then period else 2
  }

  /** Polls no further apart than that keep the alarm ahead of the clock. */
  lemma {:induction false} StaysAhead(a: Alarm, since: int, polls: seq<int>, n: nat)
    requires n <= |polls| && Live(a) && a.period >= 1 && since < a.at
    requires Increasing(since, polls) && GapsWithin(since, polls, Reach(a.period))
    ensures var fired := Fired(a, polls, n);
      && AfterPolls(a, polls, n) == a.(at := a.at + |fired| * a.period)
      && Last(since, polls, n) < a.at + |fired| * a.period
      && forall k :: 0 <= k < |fired| ==> a.at + k * a.period <= fired[k] <= a.at + k * a.period + 1
  {
    if n > 0 {
      StaysAhead(a, since, polls, n - 1);
      var k := |Fired(a, polls, n - 1)|;
      assert (k + 1) * a.period == k * a.period + a.period;
      assert polls[n - 1] <= Last(since, polls, n - 1) + Reach(a.period);
    }
  }

  /** Once a poll is 2 s or more behind the date, the alarm is silent for good. */
  lemma {:induction false} LateIsSilent(a: Alarm, since: int, polls: seq<int>, m: nat, n: nat)
    requires 0 < m <= n <= |polls| && Increasing(since, polls)
    requires AfterPolls(a, polls, m - 1).at + 2 <= polls[m - 1]
    ensures AfterPolls(a, polls, n) == AfterPolls(a, polls, m - 1)
    ensures Fired(a, polls, n) == Fired(a, polls, m - 1)
    ensures polls[m - 1] <= polls[n - 1]
    decreases n
  {
    if n > m {
      LateIsSilent(a, since, polls, m, n - 1);
      assert Last(since, polls, n - 1) < polls[n - 1];
    }
  }

  /** Before its date an alarm does nothing. */
  lemma {:induction false} EarlyIsSilent(a: Alarm, since: int, polls: seq<int>, n: nat)
    requires n <= |polls| && Increasing(since, polls) && Last(since, polls, n) < a.at
    ensures AfterPolls(a, polls, n) == a && Fired(a, polls, n) == []
  {
    if n > 0 {
      assert Last(since, polls, n - 1) < polls[n - 1];
      EarlyIsSilent(a, since, polls, n - 1);
    }
  }

  lemma {:induction false} FirstGap(since: int, polls: seq<int>, gap: int) returns (n: nat)
    requires !GapsWithin(since, polls, gap)
    ensures n < |polls| && polls[n] > Last(since, polls, n) + gap
  {
    if polls[0] > since + gap {
      n := 0;
    } else {
      var i, j :| 0 <= i && j == i + 1 < |polls| && polls[j] > polls[i] + gap;
      n := j;
    }
  }

  /** The date of a live alarm moves on with each call. */
  lemma {:induction false} DateOfFired(a: Alarm, polls: seq<int>, n: nat)
    requires n <= |polls| && Live(a)
    ensures AfterPolls(a, polls, n) == a.(at := a.at + |Fired(a, polls, n)| * a.period)
  {
    if n > 0 {
      DateOfFired(a, polls, n - 1);
      var k := |Fired(a, polls, n - 1)|;
      assert (k + 1) * a.period == k * a.period + a.period;
    }
  }

  /** A period of one second never catches up with the clock. */
  lemma {:induction false} BehindForGood(a: Alarm, since: int, polls: seq<int>, m: nat, n: nat)
    requires 0 < m <= n <= |polls| && Live(a) && a.period == 1 && Increasing(since, polls)
    requires AfterPolls(a, polls, m).at <= polls[m - 1]
    ensures AfterPolls(a, polls, n).at <= polls[n - 1]
    decreases n
  {
    if n > m {
      BehindForGood(a, since, polls, m, n - 1);
      DateOfFired(a, polls, n - 1);
    }
  }

  /** Polls serve every alarm of a period on time exactly when no two are further apart than 2 s,
      or than the period if that is one second. */
  lemma {:induction false} OnTimeIffGapsWithinReach(period: int, since: int, polls: seq<int>)
    requires period >= 1 && Increasing(since, polls)
    ensures GapsWithin(since, polls, Reach(period)) <==>
      forall at: int {:trigger Alarm(0, true, at, period, true, true)} :: since < at ==>
        OnTime(Alarm(0, true, at, period, true, true), polls)
  {
    if GapsWithin(since, polls, Reach(period)) {
      forall at: int | since < at
        ensures OnTime(Alarm(0, true, at, period, true, true), polls)
      {
        StaysAhead(Alarm(0, true, at, period, true, true), since, polls, |polls|);
      }
    } else {
      var n := FirstGap(since, polls, Reach(period));
      MissesGap(period, since, polls, n);
      assert !OnTime(Alarm(0, true, Last(since, polls, n) + 1, period, true, true), polls);
    }
  }

  /** The alarm one second after the last poll before a longer gap is not on time; with a gap above
      2 s it never fires. */
  lemma {:induction false} MissesGap(period: int, since: int, polls: seq<int>, n: nat)
    requires period >= 1 && Increasing(since, polls)
    requires n < |polls| && polls[n] > Last(since, polls, n) + Reach(period)
    ensures var a := Alarm(0, true, Last(since, polls, n) + 1, period, true, true);
      && since < a.at && !OnTime(a, polls)
      && (polls[n] > Last(since, polls, n) + 2 ==> Fired(a, polls, |polls|) == [])
  {
    var a := Alarm(0, true, Last(since, polls, n) + 1, period, true, true);
    EarlyIsSilent(a, since, polls, n);
    if polls[n] > Last(since, polls, n) + 2 {
      LateIsSilent(a, since, polls, n + 1, |polls|);
    } else {
      BehindForGood(a, since, polls, n + 1, |polls|);
      DateOfFired(a, polls, |polls|);
    }
  }

  /** With polls 2 s apart a period of one second runs dry after two calls at most. */
  lemma {:induction false} OneSecondRunsDry(a: Alarm, since: int, polls: seq<int>, n: nat)
    requires n <= |polls| && a.periodic && a.period == 1 && since < a.at
    requires polls != [] ==> polls[0] == since + 2
    requires forall i, j :: 0 <= i && j == i + 1 < |polls| ==> polls[j] == polls[i] + 2
    ensures var b := AfterPolls(a, polls, n);
      && |Fired(a, polls, n)| <= b.at - a.at <= 2
      && (b.at == a.at ==> Last(since, polls, n) < b.at)
      && (b.at == a.at + 1 ==> Last(since, polls, n) >= b.at - 1)
      && (b.at == a.at + 2 ==> Last(since, polls, n) >= b.at)
      && b.period == a.period && b.periodic
  {
    if n > 0 {
      OneSecondRunsDry(a, since, polls, n - 1);
    }
  }

  /** An absolute alarm fires once, when its second has come, and never again. */
  lemma {:induction false} AbsoluteFiresOnce(a: Alarm, since: int, polls: seq<int>, n: nat)
    requires n <= |polls| && !a.periodic && a.running && a.heard && since < a.at
    requires Increasing(since, polls) && GapsWithin(since, polls, 2)
    ensures var fired := Fired(a, polls, n);
      if Last(since, polls, n) < a.at then fired == [] && AfterPolls(a, polls, n) == a
      else |fired| == 1 && a.at <= fired[0] <= a.at + 1 && AfterPolls(a, polls, n) == a.(running := false)
  {
    if n > 0 {
      assert Last(since, polls, n - 1) < polls[n - 1] <= Last(since, polls, n - 1) + 2;
      AbsoluteFiresOnce(a, since, polls, n - 1);
    }
  }

  /** Without a callback, or when it is not running, an alarm never fires; a periodic one still moves
      its date on, by its period and only when its window is hit. */
  lemma {:induction false} SilentUnlessRunningAndHeard(a: Alarm, polls: seq<int>, n: nat)
    requires n <= |polls| && !(a.running && a.heard)
    ensures Fired(a, polls, n) == []
    ensures AfterPolls(a, polls, n).running == a.running && AfterPolls(a, polls, n).heard == a.heard
  {
    if n > 0 {
      SilentUnlessRunningAndHeard(a, polls, n - 1);
    }
  }

  /** The date of a periodic alarm moves on alike, whether its callback is called or not. */
  lemma {:induction false} DateMovesAnyway(a: Alarm, polls: seq<int>, n: nat)
    requires n <= |polls| && a.periodic
    ensures AfterPolls(a, polls, n) == AfterPolls(a.(running := true, heard := true), polls, n)
                                       .(running := a.running, heard := a.heard)
    ensures AfterPolls(a, polls, n).periodic
  {
    if n > 0 {
      DateMovesAnyway(a, polls, n - 1);
    }
  }

  /** The catch-up loop of parseAlarm can end exactly when the date is ahead of the clock or the
      period is positive. */
  lemma CatchUpEndsIff(at: int, period: int, now: int)
    ensures (exists k: nat :: Difference(at + k * period, now) <= 0)
      <==> Difference(at, now) <= 0 || period > 0
  {
    if Difference(at, now) <= 0 {
      assert Difference(at + 0 * period, now) <= 0;
    } else if period > 0 {
      var k := Difference(at, now);
      assert k * period >= k;
      assert Difference(at + k * period, now) <= 0;
    } else {
      forall k: nat ensures Difference(at + k * period, now) > 0 {
        assert k * period <= 0;
      }
    }
  }
}
