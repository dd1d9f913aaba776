/** What is heard: which step asks the player for which tone, which alert rings next, and when the
    player is halted. */
module AlertPlays {
  import opened Options
  import opened AlertModel
  import opened AlertRuns

  /** The text that the alert has the player play: its tone at hand, or the built-in tune. */
  function Sound(r: Rec): string
    requires r.Ok()
  {
    if r.tones == [] then "TONE_TYPE_ALARM" else r.tones[r.toneIndex]
  }

  /** No player request among these events. */
  predicate NoPlay(events: seq<Event>) {
    forall k :: 0 <= k < |events| ==> !events[k].Play?
  }

  /** The reports `reports` and then, if an alert rings now, the one request to play its sound. */
  ghost predicate ReportsThenPlays(st: State, st': State, reports: seq<Event>)
    requires Playable(st')
  {
    && NoPlay(reports)
    && st'.log == st.log + reports +
                  (if st'.ringing.Some? then [Play(Sound(st'.list[st'.ringing.value]))] else [])
  }

  /** The alert that rings is the active one nearest ahead of `from` in cyclic list order, and none
      does only if none is active. */
  ghost predicate NearestRings(st: State, from: Option<nat>)
    requires from.Some? ==> from.value < |st.list|
  {
    if st.ringing.None? then forall k :: 0 <= k < |st.list| ==> !st.list[k].active
    else
      && st.ringing.value < |st.list| && st.list[st.ringing.value].active
      && forall k :: 0 <= k < |st.list| && st.list[k].active && k != st.ringing.value ==>
           CyclicDistance(|st.list|, from, st.ringing.value) < CyclicDistance(|st.list|, from, k)
  }

  lemma {:induction false} SearchRings(st: State, list: seq<Rec>, log: seq<Event>, from: Option<nat>)
    requires AllOk(list) && (from.Some? ==> from.value < |list|) && st.ringing == from
    ensures var st' := RingNext(st, list, log);
            && NearestRings(st', from) && Playable(st')
            && st'.log == log + (if st'.ringing.Some? then [Play(Sound(st'.list[st'.ringing.value]))] else [])
  {
    NextActiveIsCyclicSuccessor(list, from);
    assert log + [] == log;
  }

  /** The alert whose timer fires while it is listed and none rings: it rings, and its sound is the
      one thing that is played. In any other case nothing is played. */
  lemma {:induction false} TimerPlays(st: State, id: nat)
    requires Inv(st) && id in st.armed
    ensures var st' := Apply(st, DoTimer(id));
            && Playable(st')
            && (if st.ringing.None? && id !in st.early
                then st'.ringing.Some? && st'.list[st'.ringing.value].id == id
                  && ReportsThenPlays(st, st', [Started(id)])
                else st'.ringing == st.ringing && st'.log == st.log + [Started(id)])
            && |st'.list| == |st.list|
            && (forall k :: 0 <= k < |st.list| ==>
                  st'.list[k] == if st.list[k].id == id then st.list[k].(active := true) else st.list[k])
            && (id in st.early ==> id in st'.early && st'.early[id] == st.early[id].(active := true))
  {
    ApplyKeeps(st, DoTimer(id));
  }

  /** A new alert that is created, pushed and due while none rings: it is answered, reported started
      and played with its first tone, or the built-in tune. */
  lemma {:induction false} RingsWhenDue(st: State, r: Rec)
    requires Inv(st) && Enabled(st, DoArm(r)) && st.ringing.None?
    ensures var st' := After(st, [DoArm(r), DoPush(r.id), DoTimer(r.id)]);
            && st'.list == st.list + [r.(active := true)] && st'.ringing == Some(|st.list|)
            && st'.log == st.log + [SetSuccess(r.id), Started(r.id),
                                    Play(if r.tones == [] then "TONE_TYPE_ALARM" else r.tones[0])]
  {
    AfterThree(st, DoArm(r), DoPush(r.id), DoTimer(r.id));
    var st2 := Apply(Apply(st, DoArm(r)), DoPush(r.id));
    assert st2.list == st.list + [r] && st2.list[|st.list|] == r && r.id in st2.armed && r.id !in st2.early;
    TimerPlays(st2, r.id);
    var st3 := Apply(st2, DoTimer(r.id));
    assert st3.list[st3.ringing.value].id == r.id && st3.list[|st.list|].id == r.id;
    assert st3.list == st.list + [r.(active := true)];
  }

  /** A finished play with a tone of the ringing alert left: the next tone of the same alert. */
  lemma {:induction false} FinishPlaysNextTone(st: State, i: nat)
    requires Inv(st) && st.ringing == Some(i) && st.list[i].toneIndex + 1 < |st.list[i].tones|
    ensures var st' := Apply(st, DoFinish);
            && st'.ringing == Some(i) && |st'.list| == |st.list|
            && st'.list[i] == st.list[i].(toneIndex := st.list[i].toneIndex + 1)
            && (forall k :: 0 <= k < |st.list| && k != i ==> st'.list[k] == st.list[k])
            && st'.log == st.log + [Play(st.list[i].tones[st.list[i].toneIndex + 1])]
  {
  }

  /** The last play of a loop: one loop less, or silence after the last loop; and then the next
      active alert. */
  lemma {:induction false} FinishPlaysNextAlert(st: State, i: nat)
    requires Inv(st) && st.ringing == Some(i) && st.list[i].toneIndex + 1 >= |st.list[i].tones|
    ensures var st', r := Apply(st, DoFinish), st.list[i];
            && |st'.list| == |st.list| && NearestRings(st', Some(i)) && Playable(st')
            && st'.list[i] == r.(loopCount := r.loopCount - 1, toneIndex := 0, active := r.loopCount > 1)
            && (forall k :: 0 <= k < |st.list| && k != i ==> st'.list[k] == st.list[k])
            && ReportsThenPlays(st, st', if r.loopCount == 1 then [Stopped(r.id)] else [])
  {
    ApplyKeeps(st, DoFinish);
    var r := Advance(st.list[i]);
    var list := st.list[i := r];
    assert st.list[i].Ok();
    assert st.log + [] == st.log;
    SearchRings(st, list, if r.active then st.log else st.log + [Stopped(r.id)], Some(i));
  }

  /** A finished play while none rings: the first active alert of the list, if there is one. */
  lemma {:induction false} FinishPlaysFirst(st: State)
    requires Inv(st) && st.ringing.None?
    ensures var st' := Apply(st, DoFinish);
            && st'.list == st.list && NearestRings(st', None) && Playable(st') && ReportsThenPlays(st, st', [])
  {
    SearchRings(st, st.list, st.log, None);
    assert st.log + [] == st.log;
  }

  /** A failed tone: the built-in tune is played instead, and nothing else changes. */
  lemma {:induction false} ErrorPlaysTune(st: State)
    requires Inv(st)
    ensures Apply(st, DoError(false)) == st.(log := st.log + [Play("TONE_TYPE_ALARM")])
  {
  }

  /** A failed built-in tune: the ringing alert falls silent, and the next active one is played. */
  lemma {:induction false} ErrorPlaysNextAlert(st: State)
    requires Inv(st)
    ensures var st' := Apply(st, DoError(true));
            && |st'.list| == |st.list| && NearestRings(st', st.ringing) && Playable(st')
            && (forall k :: 0 <= k < |st.list| ==>
                  st'.list[k] == if st.ringing == Some(k) then st.list[k].(active := false) else st.list[k])
            && ReportsThenPlays(st, st', if st.ringing.Some? then [Stopped(st.list[st.ringing.value].id)] else [])
  {
    ApplyKeeps(st, DoError(true));
    if st.ringing.None? {
      FinishPlaysFirst(st);
    } else {
      var i := st.ringing.value;
      SearchRings(st, st.list[i := st.list[i].(active := false)], st.log + [Stopped(st.list[i].id)], Some(i));
    }
  }

  lemma {:induction false} StopsDoNotPlay(list: seq<Rec>)
    ensures NoPlay(StopEvents(list))
  {
    if list != [] {
      StopsDoNotPlay(list[1..]);
    }
  }

  /** No other step plays anything. */
  lemma {:induction false} OthersDoNotPlay(st: State, step: Step)
    requires Inv(st) && Enabled(st, step) && (step.DoArm? || step.DoPush? || step.DoStop? || step.DoDelete?)
    ensures var st' := Apply(st, step);
            st.log <= st'.log && NoPlay(st'.log[|st.log|..])
  {
    StopsDoNotPlay(st.list);
  }

  // ----- answers to the cloud -----

  /** Each push is answered once, and the alert is then the last of the list. */
  lemma {:induction false} PushAnswers(st: State, id: nat)
    requires Inv(st) && id in st.early
    ensures var st' := Apply(st, DoPush(id));
            && st'.log == st.log + [SetSuccess(id)]
            && st'.list == st.list + [st.early[id]] && st'.ringing == st.ringing && id !in st'.early
  {
  }

  /** A delete takes the first alert with the token out of the list. The player is halted exactly if
      it is the ringing one, and then none rings; a sounding alert is reported stopped; and the delete
      is reported last. The others stay, in order, and the one that rings goes on ringing. */
  lemma {:induction false} DeleteAnswers(st: State, token: string, j: nat)
    requires Inv(st) && j < |st.list| && st.list[j].token == token
    requires forall k :: 0 <= k < j ==> st.list[k].token != token
    ensures var st', r := Apply(st, DoDelete(token)), st.list[j];
            && st'.list == st.list[..j] + st.list[j + 1..]
            && r.id !in st'.armed
            && (st.ringing.Some? && st.ringing.value != j ==>
                  st'.ringing.Some? && st'.ringing.value < |st'.list| &&
                  st'.list[st'.ringing.value] == st.list[st.ringing.value])
            && (st.ringing == Some(j) || st.ringing.None? ==> st'.ringing.None?)
            && st'.log == st.log + (if st.ringing == Some(j) then [Halt] else [])
                          + (if r.active then [Stopped(r.id)] else []) + [Deleted(token)]
  {
    assert IndexOfToken(st.list, token) == Some(j);
    if st.ringing.Some? && st.ringing.value != j {
      var i := st.ringing.value;
      var left := st.list[..j] + st.list[j + 1..];
      assert left[if i > j then i - 1 else i] == st.list[i];
    }
  }

  /** A delete of a token that is not listed is reported as failed, and nothing else happens. */
  lemma {:induction false} DeleteFails(st: State, token: string)
    requires Inv(st) && forall k :: 0 <= k < |st.list| ==> st.list[k].token != token
    ensures Apply(st, DoDelete(token)) == st.(log := st.log + [DeleteFailed(token)])
  {
  }

  /** A stop of the player silences every listed alert and reports each active one once, in list
      order. */
  lemma {:induction false} StopAnswers(st: State)
    requires Inv(st)
    ensures var st' := Apply(st, DoStop);
            && st'.ringing.None? && |st'.list| == |st.list|
            && (forall k :: 0 <= k < |st.list| ==> st'.list[k] == st.list[k].(active := false))
            && st'.log == st.log + Reports(st.list, |st.list|)
  {
    ReportsAll(st.list, 0);
  }

  /** The stops of the active ones among the first n. */
  function Reports(list: seq<Rec>, n: nat): seq<Event>
    requires n <= |list|
  {
    if n == 0 then []
    else Reports(list, n - 1) + (if list[n - 1].active then [Stopped(list[n - 1].id)] else [])
  }

  lemma {:induction false} ReportsAll(list: seq<Rec>, n: nat)
    requires n <= |list|
    ensures Reports(list, n) + StopEvents(list[n..]) == Reports(list, |list|)
    decreases |list| - n
  {
    if n == |list| {
      assert Reports(list, n) + [] == Reports(list, n);
    } else {
      ReportsAll(list, n + 1);
      assert list[n..][1..] == list[n + 1..];
      var one := if list[n].active then [Stopped(list[n].id)] else [];
      var rest := StopEvents(list[n + 1..]);
      assert (Reports(list, n) + one) + rest == Reports(list, n) + (one + rest);
    }
  }
}
