/** What the alert handlers of duerapp_alert.c do to the alert list, the ringing pointer and
    the events reported to the cloud, as functions on values.  AlertService.dfy runs the
    handlers on linked nodes and ties each of them to the function of the same name here. */
module AlertModel {
  import opened Options

  const DEFAULT_LOOP_COUNT: nat := 10
  const DEFAULT_TUNE := "TONE_TYPE_ALARM"

  /** One alert.  `id` is the identity of the allocated alert, never reused. */
  datatype Rec = Rec(id: nat, token: string, tones: seq<string>,
                     loopCount: nat, toneIndex: nat, active: bool)
  {
    /** Plays in one loop: an alert without tones plays the built-in tune once. */
    function Period(): nat {
      if |tones| == 0 then 1 else |tones|
    }

    /** Counters are 8 bits wide; a sounding alert has a loop left and a tone to play. */
    predicate Ok() {
      |tones| <= 255 && loopCount <= 255 && toneIndex < Period() && (active ==> loopCount >= 1)
    }

    /** Plays left before an active alert falls silent on its own. */
    function Remaining(): nat
      requires Ok()
    {
      if active then (loopCount - 1) * Period() + (Period() - toneIndex) else 0
    }

    function Tune(): string
      requires Ok()
    {
      if |tones| == 0 then DEFAULT_TUNE else tones[toneIndex]
    }
  }

  datatype Event =
    | Started(id: nat)
    | Stopped(id: nat)
    | Play(uri: string)
    | Halt
    | SetSuccess(id: nat)
    | Deleted(token: string)
    | DeleteFailed(token: string)

  /** `list`: the linked alert list.  `early`: alerts whose timer runs but which the worker has
      not pushed yet.  `armed`: ids whose one-shot timer can still fire.  `used`: all ids so far. */
  datatype State = State(list: seq<Rec>, early: map<nat, Rec>, ringing: Option<nat>,
                         armed: set<nat>, used: set<nat>, log: seq<Event>)

  const Initial := State([], map[], None, {}, {}, [])

  /** The 8-bit loop count of a new alert; 0, and a missing count, mean ten loops. */
  function NewLoopCount(requested: Option<int>): (n: nat)
    ensures 1 <= n <= 255
    ensures forall k :: requested == Some(k) && 1 <= k <= 255 ==> n == k
  {
    var stored := if requested.Some? then requested.value % 256 else 0;
    if stored == 0 then DEFAULT_LOOP_COUNT else stored
  }

  /** Ten loops without a count, with 0, and with every other count whose low 8 bits are 0; else these
      8 bits. */
  lemma DefaultLoops(requested: int)
    ensures NewLoopCount(None) == 10
    ensures NewLoopCount(Some(requested)) == if requested % 256 == 0 then 10 else requested % 256
  {
  }

  // ----- the successor search -----

  function FirstActiveFrom(list: seq<Rec>, i: nat): (r: Option<nat>)
    ensures r.Some? ==> i <= r.value < |list| && list[r.value].active
    ensures r.Some? ==> forall k :: i <= k < r.value ==> !list[k].active
    ensures r.None? ==> forall k :: i <= k < |list| ==> !list[k].active
    decreases |list| - i
  {
    if i >= |list| then None
    else if list[i].active then Some(i)
    else FirstActiveFrom(list, i + 1)
  }

  function NextActive(list: seq<Rec>, from: Option<nat>): Option<nat> {
    var ahead := if from.Some? then FirstActiveFrom(list, from.value + 1) else None;
    if ahead.Some? then ahead else FirstActiveFrom(list, 0)
  }

  /** Nodes passed when walking from `from` (or the sentinel) round the list to `k`. */
  function CyclicDistance(n: nat, from: Option<nat>, k: nat): nat
    requires k < n
    requires from.Some? ==> from.value < n
  {
    match from
    case None => k
    case Some(p) => if k > p then k - p - 1 else n - p - 1 + k
  }

  /** The search returns the active alert nearest ahead in cyclic list order, and nothing
      exactly when no listed alert is active. */
  lemma NextActiveIsCyclicSuccessor(list: seq<Rec>, from: Option<nat>)
    requires from.Some? ==> from.value < |list|
    ensures NextActive(list, from).None? <==> forall k :: 0 <= k < |list| ==> !list[k].active
    ensures forall j :: NextActive(list, from) == Some(j) <==>
              0 <= j < |list| && list[j].active &&
              forall k :: 0 <= k < |list| && list[k].active && k != j ==>
                CyclicDistance(|list|, from, j) < CyclicDistance(|list|, from, k)
  {
    var r := NextActive(list, from);
    forall j | 0 <= j < |list| && list[j].active &&
               (forall k :: 0 <= k < |list| && list[k].active && k != j ==>
                  CyclicDistance(|list|, from, j) < CyclicDistance(|list|, from, k))
      ensures r == Some(j)
    {
      assert r.Some?;
      assert r.value != j ==> CyclicDistance(|list|, from, j) < CyclicDistance(|list|, from, r.value);
    }
  }

  // ----- the handlers -----

  function Playing(log: seq<Event>, list: seq<Rec>, ringing: Option<nat>): seq<Event>
    requires ringing.Some? ==> ringing.value < |list| && list[ringing.value].Ok()
  {
    if ringing.Some? then log + [Play(list[ringing.value].Tune())] else log
  }

  function Silence(list: seq<Rec>): (s: seq<Rec>)
    ensures |s| == |list|
    ensures forall i :: 0 <= i < |s| ==> s[i] == list[i].(active := false)
  {
    seq(|list|, i requires 0 <= i < |list| => list[i].(active := false))
  }

  function StopEvents(list: seq<Rec>): seq<Event> {
    if list == [] then []
    else (if list[0].active then [Stopped(list[0].id)] else []) + StopEvents(list[1..])
  }

  function PlayerStopped(st: State): State {
    st.(list := Silence(st.list), ringing := None, log := st.log + StopEvents(st.list))
  }

  /** What one finished play does to the ringing alert's own counters. */
  function Advance(r: Rec): Rec {
    if r.toneIndex + 1 < |r.tones| then r.(toneIndex := r.toneIndex + 1)
    else
      var loops := if r.loopCount == 0 then 255 else r.loopCount - 1;
      r.(loopCount := loops, toneIndex := 0, active := r.active && loops != 0)
  }

  function RingNext(st: State, list: seq<Rec>, log: seq<Event>): State
    requires AllOk(list)
  {
    var next := NextActive(list, st.ringing);
    st.(list := list, ringing := next, log := Playing(log, list, next))
  }

  ghost predicate AllOk(list: seq<Rec>) {
    forall i :: 0 <= i < |list| ==> list[i].Ok()
  }

  /** What the player callbacks rely on; part of the invariant below. */
  ghost predicate Playable(st: State) {
    && AllOk(st.list)
    && (st.ringing.Some? ==> st.ringing.value < |st.list| && st.list[st.ringing.value].active)
  }

  function PlayerFinished(st: State): State
    requires Playable(st)
  {
    if st.ringing.None? then RingNext(st, st.list, st.log)
    else
      var i := st.ringing.value;
      var r := Advance(st.list[i]);
      assert st.list[i].Ok();
      var list := st.list[i := r];
      if st.list[i].toneIndex + 1 < |st.list[i].tones| then
        st.(list := list, log := st.log + [Play(r.tones[r.toneIndex])])
      else
        RingNext(st, list, if r.active then st.log else st.log + [Stopped(r.id)])
  }

  /** `ringingTune`: the failed audio was the built-in tune (DUER_AUDIO_TYPE_ALERT_RINGING). */
  function PlayerError(st: State, ringingTune: bool): State
    requires Playable(st)
  {
    if !ringingTune then st.(log := st.log + [Play(DEFAULT_TUNE)])
    else if st.ringing.None? then RingNext(st, st.list, st.log)
    else
      var i := st.ringing.value;
      var list := st.list[i := st.list[i].(active := false)];
      RingNext(st, list, st.log + [Stopped(st.list[i].id)])
  }

  function IndexOfId(list: seq<Rec>, id: nat): (r: Option<nat>)
    ensures r.Some? ==> r.value < |list| && list[r.value].id == id &&
                        forall k :: 0 <= k < r.value ==> list[k].id != id
    ensures r.None? ==> forall k :: 0 <= k < |list| ==> list[k].id != id
  {
    if list == [] then None
    else if list[0].id == id then Some(0)
    else
      var rest := IndexOfId(list[1..], id);
      if rest.Some? then Some(rest.value + 1) else None
  }

  function IndexOfToken(list: seq<Rec>, token: string): (r: Option<nat>)
    ensures r.Some? ==> r.value < |list| && list[r.value].token == token &&
                        forall k :: 0 <= k < r.value ==> list[k].token != token
    ensures r.None? ==> forall k :: 0 <= k < |list| ==> list[k].token != token
  {
    if list == [] then None
    else if list[0].token == token then Some(0)
    else
      var rest := IndexOfToken(list[1..], token);
      if rest.Some? then Some(rest.value + 1) else None
  }

  /** The worker has created the alert and started its one-shot timer. */
  function Arm(st: State, r: Rec): State {
    st.(early := st.early[r.id := r], armed := st.armed + {r.id}, used := st.used + {r.id})
  }

  /** The worker appends the alert to the list. */
  function Push(st: State, id: nat): State
    requires id in st.early
  {
    st.(list := st.list + [st.early[id]], early := st.early - {id}, log := st.log + [SetSuccess(id)])
  }

  /** The alert still exists, with a loop left to play. */
  ghost predicate Startable(st: State, id: nat) {
    id in st.early ||
    (IndexOfId(st.list, id).Some? && st.list[IndexOfId(st.list, id).value].loopCount >= 1)
  }

  function TimerFires(st: State, id: nat): State
    requires Playable(st) && Startable(st, id)
  {
    var fired := st.(armed := st.armed - {id}, log := st.log + [Started(id)]);
    if id in st.early then fired.(early := st.early[id := st.early[id].(active := true)])
    else
      var i := IndexOfId(st.list, id).value;
      assert st.list[i].Ok();
      var list := st.list[i := st.list[i].(active := true)];
      if st.ringing.Some? then fired.(list := list)
      else fired.(list := list, ringing := Some(i), log := Playing(fired.log, list, Some(i)))
  }

  function WithoutIndex<T>(s: seq<T>, i: nat): seq<T>
    requires i < |s|
  {
    s[..i] + s[i + 1..]
  }

  /** Where the ringing alert stands once alert number `j` is gone. */
  function WithoutRinging(ringing: Option<nat>, j: nat): Option<nat> {
    match ringing
    case None => None
    case Some(i) => if i == j then None else if i > j then Some(i - 1) else Some(i)
  }

  function Delete(st: State, token: string): State {
    match IndexOfToken(st.list, token)
    case None => st.(log := st.log + [DeleteFailed(token)])
    case Some(j) =>
      var r := st.list[j];
      st.(list := WithoutIndex(st.list, j), ringing := WithoutRinging(st.ringing, j), armed := st.armed - {r.id},
          log := st.log + (if st.ringing == Some(j) then [Halt] else [])
                 + (if r.active then [Stopped(r.id)] else []) + [Deleted(token)])
  }

  // ----- every run -----

  datatype Step =
    | DoArm(rec: Rec)
    | DoPush(id: nat)
    | DoTimer(id: nat)
    | DoStop
    | DoFinish
    | DoError(ringingTune: bool)
    | DoDelete(token: string)

  predicate Enabled(st: State, step: Step) {
    match step
    case DoArm(r) => r.id !in st.used && r.Ok() && !r.active && r.loopCount >= 1 && r.toneIndex == 0
    case DoPush(id) => id in st.early
    case DoTimer(id) => id in st.armed
    case _ => true
  }

  /** A step that cannot happen (a timer firing twice, say) leaves the state alone. */
  function Apply(st: State, step: Step): State
    requires Inv(st)
  {
    if !Enabled(st, step) then st else
    match step
    case DoArm(r) => Arm(st, r)
    case DoPush(id) => Push(st, id)
    case DoTimer(id) => TimerFires(st, id)
    case DoStop => PlayerStopped(st)
    case DoFinish => PlayerFinished(st)
    case DoError(ringingTune) => PlayerError(st, ringingTune)
    case DoDelete(token) => Delete(st, token)
  }

  // ----- the invariant -----

  function Starts(log: seq<Event>, id: nat): nat { multiset(log)[Started(id)] }

  function Stops(log: seq<Event>, id: nat): nat { multiset(log)[Stopped(id)] }

  function Unit(b: bool): nat { if b then 1 else 0 }

  ghost predicate IsActive(st: State, id: nat) {
    (id in st.early && st.early[id].active) ||
    exists i :: 0 <= i < |st.list| && st.list[i].id == id && st.list[i].active
  }

  ghost predicate DistinctIds(list: seq<Rec>) {
    forall i, j :: 0 <= i < j < |list| ==> list[i].id != list[j].id
  }

  ghost predicate Shape(st: State) {
    && DistinctIds(st.list)
    && Playable(st)
    && (forall i :: 0 <= i < |st.list| ==>
          st.list[i].id in st.used && st.list[i].id !in st.early)
    && (forall id :: id in st.early ==>
          st.early[id].Ok() && st.early[id].id == id && id in st.used)
    && (forall id :: id in st.armed ==> id in st.early || IndexOfId(st.list, id).Some?)
  }

  /** An alert whose timer has not fired yet is silent and has all its loops. */
  ghost predicate TimersFresh(st: State) {
    && (forall i :: 0 <= i < |st.list| && st.list[i].id in st.armed ==>
          !st.list[i].active && st.list[i].loopCount >= 1 && st.list[i].toneIndex == 0)
    && (forall id :: id in st.armed && id in st.early ==>
          !st.early[id].active && st.early[id].loopCount >= 1 && st.early[id].toneIndex == 0)
  }

  /** Every reported start is answered by at most one stop, and by none while active. */
  ghost predicate Balanced(st: State) {
    && (forall id :: Starts(st.log, id) == Stops(st.log, id) + Unit(IsActive(st, id)))
    && (forall id :: Starts(st.log, id) <= 1)
    && (forall id :: id in st.armed || id !in st.used ==> Starts(st.log, id) == 0)
  }

  ghost predicate Inv(st: State) {
    Shape(st) && TimersFresh(st) && Balanced(st)
  }
}
