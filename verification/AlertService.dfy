/** The handlers of duerapp_alert.c on the linked alert list.  Each takes the alert mutex for
    its whole body, so each is one atomic step; each is proved to do to the list, the ringing
    pointer and the reported events what the function of AlertModel with its name says. */
module AlertService {
  import opened Options
  import opened AlertModel
  import opened AlertList
  import AlertRuns

  class Service {
    const alerts: List           // s_alert_list
    var ringing: Node?           // s_ringing_alert_node
    var early: map<nat, Rec>     // created by the worker, not pushed yet
    var log: seq<Event>          // what was reported and played
    ghost var m: State

    ghost predicate Points(node: Node?, at: Option<nat>)
      reads alerts
    {
      if node == null then at.None?
      else at.Some? && at.value < |alerts.nodes| && alerts.nodes[at.value] == node
    }

    /** The linked nodes and the other fields carry the state `m`. */
    ghost predicate Linked()
      reads this, alerts, alerts.head, alerts.nodes
    {
      && alerts.Valid()
      && Points(ringing, m.ringing)
      && alerts.items == m.list && early == m.early && log == m.log
    }

    ghost predicate Valid()
      reads this, alerts, alerts.head, alerts.nodes
    {
      Linked() && Inv(m)
    }

    constructor ()
      ensures Valid() && m == Initial
    {
      alerts := new List();
      ringing, early, log, m := null, map[], [], Initial;
    }

    /** The linked nodes and the other fields now carry `next`. */
    ghost method Follow(next: State)
      requires alerts.Valid() && Points(ringing, next.ringing)
      requires alerts.items == next.list && early == next.early && log == next.log
      modifies `m
      ensures Linked() && m == next
    {
      m := next;
    }

    /** duer_find_active_alert: the next active alert behind `from`, else the first one. */
    method FindActive(from: Node?, ghost at: Option<nat>)
      returns (node: Node?)
      requires alerts.Valid() && Points(from, at)
      ensures Points(node, NextActive(alerts.items, at))
    {
      ghost var recs := alerts.items;
      node := from;
      ghost var i := if at.Some? then at.value else |recs|;
      while node != null
        invariant i <= |recs| && node == alerts.At(i)
        invariant at.Some? && i < |recs| ==>
            at.value <= i && FirstActiveFrom(recs, at.value + 1) == FirstActiveFrom(recs, i + 1)
        invariant at.Some? && i == |recs| ==> FirstActiveFrom(recs, at.value + 1).None?
        decreases |recs| - i
      {
        node := node.next;
        i := i + 1;
        if node != null && node.data.Some? && node.data.value.active {
          return;
        }
      }
      node := alerts.head.next;
      i := 0;
      while node != null
        invariant i <= |recs| && node == alerts.At(i)
        invariant FirstActiveFrom(recs, 0) == FirstActiveFrom(recs, i)
        decreases |recs| - i
      {
        if node.data.Some? && node.data.value.active {
          return;
        }
        node := node.next;
        i := i + 1;
      }
    }

    /** Clears the flag of a sounding alert and reports the stop. */
    method Deactivate(node: Node, ghost at: nat)
      requires alerts.Valid() && Points(node, Some(at))
      modifies node, alerts`items, `log
      ensures alerts.Valid() && alerts.items == old(alerts.items)[at := old(alerts.items)[at].(active := false)]
      ensures log == old(log) + [Stopped(alerts.items[at].id)]
    {
      alerts.Store(node, node.data.value.(active := false), at);
      log := log + [Stopped(node.data.value.id)];
    }

    /** One round of the loop of duer_audio_player_on_stop. */
    method DeactivateFirst(node: Node) returns (next: Node?)
      requires alerts.Valid() && Points(node, FirstActiveFrom(alerts.items, 0))
      modifies alerts`items, alerts.nodes, `log
      ensures alerts.Valid() && Points(next, FirstActiveFrom(alerts.items, 0))
      ensures Silence(alerts.items) == Silence(old(alerts.items))
      ensures log + StopEvents(alerts.items) == old(log) + StopEvents(old(alerts.items))
      ensures |StopEvents(alerts.items)| < |StopEvents(old(alerts.items))|
    {
      ghost var i := FirstActiveFrom(alerts.items, 0).value;
      DeactivateStep(alerts.items, i, log);
      Deactivate(node, i);
      next := FindActive(null, None);
    }

    /** The loop of duer_audio_player_on_stop. */
    method DeactivateAll()
      requires alerts.Valid()
      modifies alerts`items, alerts.nodes, `log
      ensures alerts.Valid() && alerts.items == Silence(old(alerts.items))
      ensures log == old(log) + StopEvents(old(alerts.items))
    {
      var node := FindActive(null, None);
      while node != null
        invariant alerts.Valid() && Points(node, FirstActiveFrom(alerts.items, 0))
        invariant Silence(alerts.items) == Silence(old(alerts.items))
        invariant log + StopEvents(alerts.items) == old(log) + StopEvents(old(alerts.items))
        decreases |StopEvents(alerts.items)|
      {
        node := DeactivateFirst(node);
      }
      NoStopEvents(alerts.items);
    }

    /** duer_audio_player_on_stop */
    method OnStop()
      requires Valid()
      modifies `ringing, `log, `m, alerts`items, alerts.nodes
      ensures Valid() && m == PlayerStopped(old(m))
    {
      DeactivateAll();
      ringing := null;
      AlertRuns.PlayerStoppedKeeps(m);
      m := PlayerStopped(m);
    }

    /** The counters of the ringing alert at a finished play; `more` when a tone is left. */
    method CountPlay(node: Node, ghost at: nat) returns (more: bool)
      requires alerts.Valid() && Points(node, Some(at))
      requires alerts.items[at].Ok()
      modifies node, alerts`items, `log
      ensures alerts.Valid() && alerts.items == old(alerts.items)[at := Advance(old(alerts.items)[at])]
      ensures more == (old(alerts.items)[at].toneIndex + 1 < |old(alerts.items)[at].tones|)
      ensures log == old(log) + (if more then [Play(alerts.items[at].Tune())]
                                 else if alerts.items[at].loopCount != 0 then []
                                 else [Stopped(alerts.items[at].id)])
    {
      var alert := node.data.value;
      more := alert.toneIndex + 1 < |alert.tones|;
      if more {
        alert := alert.(toneIndex := alert.toneIndex + 1);
        log := log + [Play(alert.tones[alert.toneIndex])];
      } else {
        alert := alert.(loopCount := if alert.loopCount == 0 then 255 else alert.loopCount - 1);
        alert := alert.(toneIndex := 0);
        if alert.loopCount == 0 {
          alert := alert.(active := false);
          log := log + [Stopped(alert.id)];
        }
      }
      alerts.Store(node, alert, at);
    }

    method PlayTune(alert: Rec)
      requires alert.Ok()
      modifies `log
      ensures log == old(log) + [Play(alert.Tune())]
    {
      if |alert.tones| != 0 {
        log := log + [Play(alert.tones[alert.toneIndex])];
      } else {
        log := log + [Play(DEFAULT_TUNE)];
      }
    }

    /** The tail shared by the finish and error handlers: move on to the next active alert. */
    method MoveOn(ghost at: Option<nat>)
      requires alerts.Valid() && Points(ringing, at) && AllOk(alerts.items)
      modifies `ringing, `log
      ensures Points(ringing, NextActive(alerts.items, at))
      ensures log == Playing(old(log), alerts.items, NextActive(alerts.items, at))
    {
      ringing := FindActive(ringing, at);
      if ringing != null {
        PlayTune(ringing.data.value);
      }
    }

    /** duer_audio_player_on_finish with a ringing alert. */
    method FinishRinging()
      requires Linked() && Playable(m) && ringing != null
      modifies `ringing, `log, `m, alerts`items, alerts.nodes
      ensures Linked() && m == PlayerFinished(old(m))
    {
      var more := CountPlay(ringing, m.ringing.value);
      if !more {
        MoveOn(m.ringing);
      }
      Follow(PlayerFinished(m));
    }

    /** duer_audio_player_on_finish, whatever the history. */
    method Finish()
      requires Linked() && Playable(m)
      modifies `ringing, `log, `m, alerts`items, alerts.nodes
      ensures Linked() && m == PlayerFinished(old(m))
    {
      if ringing != null {
        FinishRinging();
      } else {
        MoveOn(m.ringing);
        Follow(PlayerFinished(m));
      }
    }

    method OnFinish()
      requires Valid()
      modifies `ringing, `log, `m, alerts`items, alerts.nodes
      ensures Valid() && m == PlayerFinished(old(m))
    {
      AlertRuns.PlayerFinishedKeeps(m);
      Finish();
    }

    /** duer_audio_player_on_error, whatever the history. */
    method Fail(ringingTune: bool)
      requires Linked() && Playable(m)
      modifies `ringing, `log, `m, alerts`items, alerts.nodes
      ensures Linked() && m == PlayerError(old(m), ringingTune)
    {
      if ringingTune {
        if ringing != null {
          Deactivate(ringing, m.ringing.value);
        }
        MoveOn(m.ringing);
      } else {
        log := log + [Play(DEFAULT_TUNE)];
      }
      Follow(PlayerError(m, ringingTune));
    }

    method OnError(ringingTune: bool)
      requires Valid()
      modifies `ringing, `log, `m, alerts`items, alerts.nodes
      ensures Valid() && m == PlayerError(old(m), ringingTune)
    {
      AlertRuns.PlayerErrorKeeps(m, ringingTune);
      Fail(ringingTune);
    }

    /** The worker has created an alert and started its timer. */
    method Arm(alert: Rec)
      requires Valid() && Enabled(m, DoArm(alert))
      modifies `early, `m
      ensures Valid() && m == AlertModel.Arm(old(m), alert)
    {
      AlertRuns.ArmKeeps(m, alert);
      early := early[alert.id := alert];
      m := AlertModel.Arm(m, alert);
    }

    /** The end of the worker's round: push the alert and report success. */
    method PushAlert(id: nat)
      requires Valid() && id in early
      modifies this, alerts, alerts.head, alerts.nodes
      ensures Valid() && m == Push(old(m), id)
    {
      AlertRuns.PushKeeps(m, id);
      alerts.Push(early[id]);
      log := log + [SetSuccess(id)];
      early := early - {id};
      m := Push(m, id);
    }

    /** The search of duer_alert_callback for the node of the alert. */
    method FindNode(id: nat) returns (node: Node?)
      requires alerts.Valid()
      ensures Points(node, IndexOfId(alerts.items, id))
    {
      node := alerts.head.next;
      ghost var i := 0;
      while node != null
        invariant i <= |alerts.items| && node == alerts.At(i)
        invariant forall k :: 0 <= k < i ==> alerts.items[k].id != id
        decreases |alerts.items| - i
      {
        if node.data.value.id == id {
          return;
        }
        node := node.next;
        i := i + 1;
      }
    }

    /** The started alert rings unless another one does or it is not listed yet. */
    method RingStarted(id: nat, ghost at: Option<nat>)
      requires alerts.Valid() && AllOk(alerts.items) && at == IndexOfId(alerts.items, id)
      modifies `ringing, `log
      ensures old(ringing) != null ==> ringing == old(ringing) && log == old(log)
      ensures old(ringing) == null ==>
                Points(ringing, at) && log == Playing(old(log), alerts.items, at)
    {
      if ringing != null {
        return;
      }
      ringing := FindNode(id);
      if ringing != null {
        PlayTune(ringing.data.value);
      }
    }

    /** is_active is set for a listed alert, and its start reported. */
    method Flag(node: Node, ghost at: nat)
      requires alerts.Valid() && Points(node, Some(at))
      modifies node, alerts`items, `log
      ensures alerts.Valid() && alerts.items == old(alerts.items)[at := old(alerts.items)[at].(active := true)]
      ensures log == old(log) + [Started(alerts.items[at].id)]
    {
      alerts.Store(node, node.data.value.(active := true), at);
      log := log + [Started(node.data.value.id)];
    }

    /** duer_alert_callback for an alert that is listed. */
    method StartListed(id: nat, holder: Node)
      requires Linked() && Playable(m) && Startable(m, id)
      requires id !in early && Points(holder, IndexOfId(m.list, id))
      modifies `ringing, `early, `log, `m, alerts`items, alerts.nodes
      ensures Linked() && m == TimerFires(old(m), id)
    {
      ghost var next, at := TimerFires(m, id), IndexOfId(m.list, id);
      FiresListed(m, id);
      Flag(holder, at.value);
      RingStarted(id, at);
      Follow(next);
    }

    /** duer_alert_callback, whatever the history. */
    method Start(id: nat, holder: Node?)
      requires Linked() && Playable(m) && Startable(m, id)
      requires if id in early then holder == null else holder != null && Points(holder, IndexOfId(m.list, id))
      requires id in early ==> IndexOfId(m.list, id).None?
      modifies `ringing, `early, `log, `m, alerts`items, alerts.nodes
      ensures Linked() && m == TimerFires(old(m), id)
    {
      if holder != null {
        StartListed(id, holder);
      } else {
        early := early[id := early[id].(active := true)];
        log := log + [Started(id)];
        RingStarted(id, None);
        Follow(TimerFires(m, id));
      }
    }

    method OnTimer(id: nat, holder: Node?)
      requires Valid() && id in m.armed
      requires if id in early then holder == null else holder != null && Points(holder, IndexOfId(m.list, id))
      modifies `ringing, `early, `log, `m, alerts`items, alerts.nodes
      ensures Valid() && m == TimerFires(old(m), id)
    {
      AlertRuns.TimerFiresKeeps(m, id);
      Start(id, holder);
    }

    /** duer_find_target_alert_node */
    method FindTarget(token: string) returns (node: Node?)
      requires alerts.Valid()
      ensures Points(node, IndexOfToken(alerts.items, token))
    {
      node := alerts.head.next;
      ghost var i := 0;
      while node != null
        invariant i <= |alerts.items| && node == alerts.At(i)
        invariant forall k :: 0 <= k < i ==> alerts.items[k].token != token
        decreases |alerts.items| - i
      {
        if node.data.value.token == token {
          return;
        }
        node := node.next;
        i := i + 1;
      }
    }

    /** A node stands in one place only. */
    lemma OnePlace(node: Node, i: nat, j: nat)
      requires alerts.Valid() && Points(node, Some(i)) && Points(node, Some(j))
      ensures i == j
    {
    }

    /** Lets go of the alert when it rings. */
    method LetGo(target: Node, ghost at: nat, ghost rings: Option<nat>)
      requires alerts.Valid() && Points(target, Some(at)) && Points(ringing, rings)
      modifies `ringing
      ensures Points(ringing, if rings == Some(at) then None else rings)
    {
      if target == ringing {
        OnePlace(target, at, rings.value);
        ringing := null;
      }
    }

    method Unlink(target: Node, ghost at: nat)
      requires alerts.Valid() && Points(target, Some(at))
      modifies alerts, alerts.head, alerts.nodes
      ensures alerts.Valid() && alerts.items == WithoutIndex(old(alerts.items), at)
      ensures alerts.nodes == WithoutIndex(old(alerts.nodes), at)
    {
      assert target in alerts.nodes;
      var removed, k := alerts.Remove(target);
      assert k == at;
    }

    /** Unlinks the alert, and lets go of it when it rings. */
    method Forget(target: Node, ghost at: nat, ghost rings: Option<nat>)
      requires alerts.Valid() && Points(target, Some(at)) && Points(ringing, rings)
      modifies `ringing, alerts, alerts.head, alerts.nodes
      ensures alerts.Valid() && alerts.items == WithoutIndex(old(alerts.items), at)
      ensures Points(ringing, WithoutRinging(rings, at))
    {
      LetGo(target, at, rings);
      RingsShift(alerts.nodes, ringing, at, rings);
      Unlink(target, at);
    }

    /** The part of duer_dcs_alert_delete_handler for a token that is listed. */
    method DeleteListed(target: Node, token: string)
      requires Linked() && IndexOfToken(m.list, token).Some? && Points(target, IndexOfToken(m.list, token))
      modifies `ringing, `log, `m, alerts, alerts.head, alerts.nodes
      ensures Linked() && m == Delete(old(m), token)
    {
      ghost var at := IndexOfToken(m.list, token).value;
      var alert, halted := target.data.value, target == ringing;
      assert alert == m.list[at] && halted == (m.ringing == Some(at));
      Forget(target, at, m.ringing);
      log := log + (if halted then [Halt] else [])
                 + (if alert.active then [Stopped(alert.id)] else []) + [Deleted(token)];
      Follow(Delete(m, token));
    }

    /** duer_dcs_alert_delete_handler, whatever the history. */
    method DeleteToken(token: string)
      requires Linked()
      modifies `ringing, `log, `m, alerts, alerts.head, alerts.nodes
      ensures Linked() && m == Delete(old(m), token)
    {
      var target := FindTarget(token);
      if target == null {
        log := log + [DeleteFailed(token)];
        Follow(Delete(m, token));
      } else {
        DeleteListed(target, token);
      }
    }

    method OnDelete(token: string)
      requires Valid()
      modifies this, alerts, alerts.head, alerts.nodes
      ensures Valid() && m == Delete(old(m), token)
    {
      AlertRuns.DeleteKeeps(m, token);
      DeleteToken(token);
    }
  }

  /** Where the ringing alert stands when the node at `at`, which is not its own, is gone. */
  lemma RingsShift(nodes: seq<Node>, ringing: Node?, at: nat, rings: Option<nat>)
    requires at < |nodes|
    requires if ringing == null then rings.None? || rings == Some(at)
             else rings.Some? && rings.value != at && rings.value < |nodes| && nodes[rings.value] == ringing
    ensures var left, r := WithoutIndex(nodes, at), WithoutRinging(rings, at);
            if ringing == null then r.None? else r.Some? && r.value < |left| && left[r.value] == ringing
  {
    if ringing != null {
      IndexShift(nodes, at, rings.value);
    }
  }

  lemma IndexShift<T>(s: seq<T>, at: nat, i: nat)
    requires at < |s| && i < |s| && i != at
    ensures WithoutIndex(s, at)[if i > at then i - 1 else i] == s[i]
  {
  }

  lemma FiresListed(m: State, id: nat)
    requires Playable(m) && Startable(m, id) && id !in m.early
    ensures var next, at, log := TimerFires(m, id), IndexOfId(m.list, id), m.log + [Started(id)];
      && next.list == m.list[at.value := m.list[at.value].(active := true)]
      && next.early == m.early && AllOk(next.list) && IndexOfId(next.list, id) == at
      && (m.ringing.Some? ==> next.ringing == m.ringing && next.log == log)
      && (m.ringing.None? ==> next.ringing == at && next.log == Playing(log, next.list, at))
  {
    SameIds(m.list, TimerFires(m, id).list, id);
  }

  lemma SameIds(a: seq<Rec>, b: seq<Rec>, id: nat)
    requires |a| == |b| && forall i :: 0 <= i < |a| ==> a[i].id == b[i].id
    ensures IndexOfId(a, id) == IndexOfId(b, id)
  {
  }

  lemma {:induction false} FirstStopEvent(list: seq<Rec>, i: nat)
    requires FirstActiveFrom(list, 0) == Some(i)
    ensures StopEvents(list) == [Stopped(list[i].id)] + StopEvents(list[i := list[i].(active := false)])
  {
    var list' := list[i := list[i].(active := false)];
    if i == 0 {
      assert list'[1..] == list[1..];
    } else {
      assert !list[0].active;
      var found := FirstActiveFrom(list[1..], 0);
      assert found == Some(i - 1) by {
        assert list[1..][i - 1].active;
        assert found.Some? ==> list[found.value + 1].active;
        assert forall k :: 0 <= k < i - 1 ==> list[1..][k] == list[k + 1];
      }
      FirstStopEvent(list[1..], i - 1);
      assert list'[1..] == list[1..][i - 1 := list[i].(active := false)];
    }
  }

  /** One round of the stop loop leaves the outcome of the whole loop as it was. */
  lemma DeactivateStep(list: seq<Rec>, i: nat, log: seq<Event>)
    requires FirstActiveFrom(list, 0) == Some(i)
    ensures var rest := list[i := list[i].(active := false)];
            && Silence(rest) == Silence(list)
            && (log + [Stopped(rest[i].id)]) + StopEvents(rest) == log + StopEvents(list)
            && |StopEvents(rest)| < |StopEvents(list)|
  {
    FirstStopEvent(list, i);
  }

  lemma {:induction false} NoStopEvents(list: seq<Rec>)
    requires forall i :: 0 <= i < |list| ==> !list[i].active
    ensures StopEvents(list) == [] && Silence(list) == list
  {
    if list != [] {
      NoStopEvents(list[1..]);
    }
  }
}
