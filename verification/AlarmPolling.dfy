/** The list of alarms of AlarmService.c: adding with the catch-up loop of parseAlarm, and the
    poll that runs every two seconds. */
module AlarmPolling {
  import opened AlarmModel

  /** Days, hours, minutes and seconds. Those read from a text shorter than MAX_FORMAT_LEN are not
      negative (AlarmText.NoNegativeField); mktime takes any value in each. */
  datatype Fields = Fields(d: nat, h: nat, mi: nat, s: nat)

  function Seconds(f: Fields): int {
    ((f.d * 24 + f.h) * 60 + f.mi) * 60 + f.s
  }

  lemma SecondsInAll(f: Fields)
    ensures Seconds(f) == 86400 * f.d + 3600 * f.h + 60 * f.mi + f.s
  {
  }

  /** What get_Date allows as the time of day. */
  predicate InRange(date: Fields) {
    date.h <= 24 && date.mi <= 59 && date.s <= 59
  }

  lemma {:induction false} NextMultiple(at: int, k: nat, p: int)
    ensures at + k * p + p == at + (k + 1) * p
  {
  }

  /** The alarms when the first n have been polled. */
  function Round(alarms: seq<Alarm>, now: int, n: nat): seq<Alarm>
    requires n <= |alarms|
  {
    seq(|alarms|, k requires 0 <= k < |alarms| => if k < n then Polled(alarms[k], now) else alarms[k])
  }

  lemma OneMorePolled(alarms: seq<Alarm>, now: int, n: nat)
    requires n < |alarms|
    ensures Round(alarms, now, n)[n] == alarms[n]
    ensures Round(alarms, now, n)[n := Polled(alarms[n], now)] == Round(alarms, now, n + 1)
  {
  }

  class Node {
    const handle: nat
    const periodic: bool
    const period: Fields   // pdate_t
    var date: Fields       // date_t
    var running: bool
    var heard: bool

    constructor (handle: nat, periodic: bool, date: Fields, period: Fields)
      ensures Value() == Alarm(handle, periodic, Seconds(date), Seconds(period), true, false)
      ensures this.period == period && this.handle == handle
    {
      this.handle, this.periodic, this.date, this.period := handle, periodic, date, period;
      running, heard := true, false;
    }

    function Value(): Alarm
      reads this
    {
      Alarm(handle, periodic, Seconds(date), Seconds(period), running, heard)
    }

    /** updatePerAlarm, and the body of the catch-up loop */
    method Advance()
      modifies `date
      ensures Value() == old(Value()).(at := old(Value()).at + Seconds(period))
    {
      date := Fields(date.d + period.d, date.h + period.h, date.mi + period.mi, date.s + period.s);
    }

    /** The catch-up loop of parseAlarm: the date becomes the first of its occurrences that is
        later than now. */
    method CatchUp(now: int) returns (ghost k: nat)
      requires Seconds(date) <= now ==> Seconds(period) > 0
      modifies `date
      ensures Value() == old(Value()).(at := old(Value()).at + k * Seconds(period))
      ensures now < Seconds(date)
      ensures forall i: nat :: i < k ==> old(Value()).at + i * Seconds(period) <= now
    {
      k := 0;
      ghost var at, p := Seconds(date), Seconds(period);
      while Difference(Seconds(date), now) > 0
        invariant Seconds(date) == at + k * p
        invariant Seconds(date) <= now ==> p > 0
        invariant forall i: nat :: i < k ==> at + i * p <= now
        decreases now - Seconds(date)
      {
        NextMultiple(at, k, p);
        Advance();
        k := k + 1;
      }
    }

    /** alarmTrigger and the round of PollTimerCallback for this alarm; true when its callback
        is called. */
    method Poll(now: int) returns (called: bool)
      modifies `date, `running
      ensures Value() == Polled(old(Value()), now)
      ensures called == Calls(old(Value()), now)
    {
      called := false;
      var diff := Difference(Seconds(date), now);
      if diff > 0 && !periodic {
        if diff < 3 && heard && running {
          called := true;
          running := false;
        }
      } else if diff > 0 && periodic {
        if diff < 3 {
          called := heard && running;
          Advance();
        }
      }
    }
  }

  class Service {
    var list: seq<Node>    // g_esp_alarm_info_head
    var lastHandle: nat
    var calls: seq<nat>    // handles whose callbacks were called

    /** No node and no handle stands in the list twice. */
    ghost predicate Valid()
      reads this
    {
      (forall i, j :: 0 <= i < j < |list| ==> list[i] != list[j] && list[i].handle != list[j].handle)
      && forall i :: 0 <= i < |list| ==> list[i].handle < lastHandle
    }

    ghost function Values(): seq<Alarm>
      reads this, list
    {
      seq(|list|, i requires 0 <= i < |list| reads this, list => list[i].Value())
    }

    constructor ()
      ensures Valid() && list == [] && calls == [] && lastHandle == 0
    {
      list, lastHandle, calls := [], 0, [];
    }

    /** esp_alarm_add of the numbers of an alarm; false for a time of day out of range, an absolute
        date that is not ahead, or a period whose fields add up to 0. */
    method Add(periodic: bool, date: Fields, period: Fields, now: int)
      returns (ok: bool, ghost k: nat)
      requires Valid()
      modifies this
      ensures Valid()
      ensures ok <==>
        date.h <= 24 && date.mi <= 59 && date.s <= 59 &&
        if periodic then period.d + period.h + period.mi + period.s != 0 else now < Seconds(date)
      ensures !ok ==> list == old(list) && lastHandle == old(lastHandle)
      ensures ok ==> lastHandle == old(lastHandle) + 1
      ensures calls == old(calls)
      ensures ok ==> list != [] && fresh(list[0]) && list[1..] == old(list)
      ensures ok ==> list[0].Value() == Alarm(old(lastHandle), periodic, Seconds(date) + k * Seconds(period),
                                              Seconds(period), true, false)
      ensures ok ==> now < list[0].Value().at
      ensures forall i: nat :: i < k ==> Seconds(date) + i * Seconds(period) <= now
    {
      k := 0;
      if !InRange(date) {
        ok := false;
      } else if periodic {
        ok := period.d + period.h + period.mi + period.s != 0;
      } else {
        ok := Difference(Seconds(date), now) <= 0;
      }
      if ok {
        var node := new Node(lastHandle, periodic, date, period);
        if periodic {
          k := node.CatchUp(now);
        }
        lastHandle := lastHandle + 1;
        list := [node] + list;
      }
    }

    /** One round of the loop of PollTimerCallback. */
    method PollAt(i: nat, now: int)
      requires Valid() && i < |list|
      modifies `calls, list[i]
      ensures Values() == old(Values())[i := Polled(old(Values())[i], now)]
      ensures calls == old(calls) + if Calls(old(Values())[i], now) then [old(Values())[i].handle] else []
    {
      var called := list[i].Poll(now);
      if called {
        calls := calls + [list[i].handle];
      }
    }

    /** The same, in a round that has come to the alarm at i. */
    method PollNext(ghost before: seq<Alarm>, i: nat, now: int)
      requires Valid() && i < |list| == |before| && Values() == Round(before, now, i)
      modifies `calls, list
      ensures Values() == Round(before, now, i + 1)
      ensures calls == old(calls) + if Calls(before[i], now) then [before[i].handle] else []
    {
      OneMorePolled(before, now, i);
      PollAt(i, now);
    }

    /** PollTimerCallback */
    method Poll(now: int)
      requires Valid()
      modifies `calls, list
      ensures Values() == Round(old(Values()), now, |list|)
      ensures calls == old(calls) + CallsOf(old(Values()), now, |list|)
    {
      ghost var before := Values();
      var i := 0;
      assert before == Round(before, now, 0);
      while i < |list|
        invariant 0 <= i <= |list| == |before| && Values() == Round(before, now, i)
        invariant calls == old(calls) + CallsOf(before, now, i)
      {
        PollNext(before, i, now);
        i := i + 1;
      }
    }
  }
}
