/** Requests in a row on a connection of httpd.c, over every run of events: when one is served. */
module RequestRuns {
  import opened Options
  import opened Bytes
  import opened ReceiveModel
  import opened ReceiveRuns

  /** A request as the client sends it. */
  datatype Request = Request(head: seq<byte>, body: seq<byte>)

  /** The head as the server holds it. */
  function Head(r: Request): seq<byte> {
    Normal(r.head, |r.head|)
  }

  /** A complete head that announces the length of the body. */
  predicate WellFormed(app: App, r: Request) {
    var length := app.length(Head(r));
    && IsHead(r.head) && app.maxPost > 0
    && (if r.body == [] then length.None? || length == Some(0) else length == Some(|r.body|))
  }

  /** The hand-overs that the request is owed. */
  function Expected(app: App, r: Request): seq<Call> {
    if r.body == [] || app.maxPost == 0 then [Call(Head(r), [])]
    else Calls(Head(r), Cut(r.body, app.maxPost))
  }

  /** The buffer is as large as the body or the limit, whichever is less; the blocks are those of the
      limit. */
  lemma BufferIsLess(app: App, c: Conn, n: nat)
    requires app.length(c.head) == Some(n) && n > 0
    ensures EndHead(app, c).buffSize == if n <= app.maxPost then n else app.maxPost
  {
  }

  lemma CutOfLess(body: seq<byte>, max: nat)
    requires body != [] && max > 0
    ensures Cut(body, Min(|body|, max)) == Cut(body, max)
  {
  }

  /** The events of one request: those before its last byte, and from its last byte on up to the
      first byte of the next request. */
  datatype Turn = Turn(before: seq<Event>, tail: seq<Event>)

  predicate IsTurn(r: Request, t: Turn) {
    && t.tail != [] && t.tail[0].In? && InBytes(t.tail[1..]) == []
    && InBytes(t.before) + [t.tail[0].b] == r.head + r.body
  }

  function AfterTurn(app: App, c: Conn, t: Turn): Conn {
    Run(app, c, t.before + t.tail)
  }

  /** The CGI was given the body in its blocks. */
  predicate HandedOver(app: App, c: Conn, r: Request, t: Turn) {
    HandOvers(AfterTurn(app, c, t).log) == HandOvers(c.log) + Expected(app, r)
  }

  /** The request was served: the CGI was given its body, and the connection is ready for the next
      request. */
  predicate Served(app: App, c: Conn, r: Request, t: Turn) {
    HandedOver(app, c, r, t) && Ready(AfterTurn(app, c, t))
  }

  /** The response is chunked, no call before the last hand-over ends the request, and one at or
      behind it does, before the next request begins and the connection is closed. */
  predicate Regular(app: App, c: Conn, r: Request, t: Turn) {
    && Closed !in t.before + t.tail && app.chunked(Head(r))
    && Quiet(app, c, t.before) && !Quiet(app, Run(app, c, t.before), t.tail)
  }

  // ----- the head -----

  /** A byte of an unfinished head only adds to it, and a continuation does nothing. */
  lemma {:induction false} HeadEvent(app: App, c: Conn, bytes: seq<byte>, k: nat, e: Event)
    requires Ready(c) && !e.Closed? && k <= |bytes|
    requires e.In? ==> k < |bytes| && e.b == bytes[k] && forall m :: 0 <= m <= k + 1 ==> !Ends(bytes, m)
    ensures var now := c.(head := Normal(bytes, k));
            && React(app, now, e) == (if e.In? then c.(head := Normal(bytes, k + 1)) else now)
            && !Finishes(app, now, e)
  {
    if e.In? {
      HeadStep(app, c, bytes, k);
    }
  }

  /** Until the head is complete, a run only adds to it. */
  lemma {:induction false} HeadRun(app: App, c: Conn, bytes: seq<byte>, k: nat, evs: seq<Event>)
    requires Ready(c) && Closed !in evs && k + |InBytes(evs)| <= |bytes|
    requires InBytes(evs) == bytes[k..k + |InBytes(evs)|]
    requires forall m :: 0 <= m <= k + |InBytes(evs)| ==> !Ends(bytes, m)
    ensures var now := c.(head := Normal(bytes, k));
            && Run(app, now, evs) == c.(head := Normal(bytes, k + |InBytes(evs)|))
            && Quiet(app, now, evs)
    decreases |evs|
  {
    if evs != [] {
      var n := if evs[0].In? then 1 else 0;
      assert InBytes(evs) == (if evs[0].In? then [evs[0].b] else []) + InBytes(evs[1..]);
      assert evs[0].In? ==> InBytes(evs)[0] == bytes[k];
      assert InBytes(evs[1..]) == InBytes(evs)[n..];
      HeadEvent(app, c, bytes, k, evs[0]);
      HeadRun(app, c, bytes, k + n, evs[1..]);
    }
  }

  /** All of a head but its last byte. */
  lemma {:induction false} HeadButLast(app: App, c: Conn, head: seq<byte>, evs: seq<Event>)
    requires Ready(c) && Closed !in evs && IsHead(head) && head != []
    requires InBytes(evs) == head[..|head| - 1]
    ensures Run(app, c, evs) == c.(head := Normal(head, |head| - 1)) && Quiet(app, c, evs)
  {
    var n := |head| - 1;
    assert head[0..0 + n] == head[..n];
    assert c.(head := Normal(head, 0)) == c;
    HeadRun(app, c, head, 0, evs);
  }

  /** All of a head but its last byte, and then that one. */
  lemma {:induction false} HeadTurn(app: App, c: Conn, head: seq<byte>, evs: seq<Event>, last: byte)
    requires Ready(c) && Closed !in evs && IsHead(head) && InBytes(evs) + [last] == head
    ensures var h := Normal(head, |head|);
            var d := Run(app, c, evs);
            && Quiet(app, c, evs) && d.log == c.log && !d.gone
            && React(app, d, In(last)) == EndHead(app, c.(head := h))
  {
    assert head[..|head| - 1] == InBytes(evs);
    HeadButLast(app, c, head, evs);
    HeadStep(app, c, head, |head| - 1);
  }

  /** Where a run goes on from a to b. */
  lemma {:induction false} SplitAt(evs: seq<Event>, a: seq<byte>, b: seq<byte>) returns (k: nat)
    requires InBytes(evs) == a + b && b != []
    ensures k < |evs| && evs[k] == In(b[0])
    ensures InBytes(evs[..k]) == a && InBytes(evs[k..]) == b && InBytes(evs[k + 1..]) == b[1..]
  {
    if evs[0].In? && a == [] {
      k := 0;
      assert a + b == b && evs[0..] == evs;
      assert InBytes(evs)[1..] == InBytes(evs[1..]);
    } else {
      var a' := if evs[0].In? then a[1..] else a;
      var first := if evs[0].In? then [evs[0].b] else [];
      assert InBytes(evs)[|first|..] == InBytes(evs[1..]) == a' + b;
      k := SplitAt(evs[1..], a', b);
      assert evs[..k + 1] == [evs[0]] + evs[1..][..k] && evs[1..][k..] == evs[k + 1..];
      assert evs[1..][k + 1..] == evs[k + 2..];
      assert evs[..k + 1][1..] == evs[1..][..k];
      assert first + a' == a;
      k := k + 1;
    }
  }

  // ----- the end of a request -----

  lemma {:induction false} SentsOnReady(app: App, c: Conn, sents: seq<Event>)
    requires Ready(c) && InBytes(sents) == [] && Closed !in sents
    ensures Run(app, c, sents) == c
    decreases |sents|
  {
    if sents != [] {
      assert React(app, c, sents[0]) == c;
      SentsOnReady(app, c, sents[1..]);
    }
  }

  /** A CGI that has more to send after the last hand-over. */
  predicate HasMore(c: Conn) {
    c.cgi && c.chunked && c.postLen >= 0 && !c.closing && !c.asked && !c.gone
  }

  /** It frees the connection as soon as a continuation finds it done. */
  lemma {:induction false} SentsFinish(app: App, c: Conn, sents: seq<Event>)
    requires HasMore(c) && InBytes(sents) == [] && Closed !in sents
    ensures var d := Run(app, c, sents);
            HandOvers(d.log) == HandOvers(c.log) && (Ready(d) <==> !Quiet(app, c, sents))
    decreases |sents|
  {
    if sents != [] {
      var d := React(app, c, sents[0]);
      HandOversAppend(c.log, Again(c.head, c.buff));
      if Finishes(app, c, sents[0]) {
        SentsOnReady(app, d, sents[1..]);
      } else {
        SentsFinish(app, d, sents[1..]);
      }
    }
  }

  /** From the last hand-over of a chunked response on. */
  lemma {:induction false} LastHandOver(app: App, p: Conn, tail: seq<Event>, x: Conn)
    requires !p.gone && tail != [] && tail[0].In? && InBytes(tail[1..]) == [] && Closed !in tail
    requires HasMore(x) && x.buff == [] && React(app, p, tail[0]) == Answered(app, x) && |x.log| > |p.log|
    ensures var d := Run(app, p, tail);
            HandOvers(d.log) == HandOvers(x.log) && (Ready(d) <==> !Quiet(app, p, tail))
  {
    if app.done(x.log) {
      SentsOnReady(app, CgiIsDone(x), tail[1..]);
    } else {
      SentsFinish(app, x, tail[1..]);
    }
  }

  /** From the last hand-over of a response without chunking on. */
  lemma {:induction false} NeverReady(app: App, p: Conn, tail: seq<Event>, x: Conn)
    requires !p.gone && tail != [] && tail[0].In? && InBytes(tail[1..]) == [] && Closed !in tail
    requires !x.chunked && x.postLen >= 0 && !x.gone && React(app, p, tail[0]) == Answered(app, x)
    ensures var d := Run(app, p, tail);
            HandOvers(d.log) == HandOvers(x.log) && !Ready(d)
  {
    SentsBehind(app, Answered(app, x), tail[1..]);
  }

  lemma {:induction false} TurnParts(t: Turn)
    requires t.tail != [] && t.tail[0].In? && InBytes(t.tail[1..]) == []
    ensures InBytes(t.tail) == [t.tail[0].b]
    ensures InBytes(t.before + t.tail) == InBytes(t.before) + [t.tail[0].b]
    ensures Closed !in t.before + t.tail ==> Closed !in t.before && Closed !in t.tail
  {
    InBytesConcat(t.before, t.tail);
    assert [t.tail[0].b] + [] == [t.tail[0].b];
  }

  /** A request without a body. */
  lemma {:induction false} BodilessTurn(app: App, c: Conn, r: Request, t: Turn)
    requires Ready(c) && WellFormed(app, r) && IsTurn(r, t) && r.body == [] && Closed !in t.before + t.tail
    ensures Quiet(app, c, t.before) && HandedOver(app, c, r, t)
    ensures Ready(AfterTurn(app, c, t)) <==> app.chunked(Head(r)) && !Quiet(app, Run(app, c, t.before), t.tail)
  {
    var h, p := Head(r), Run(app, c, t.before);
    TurnParts(t);
    assert r.head + [] == r.head;
    HeadTurn(app, c, r.head, t.before, t.tail[0].b);
    RunConcat(app, c, t.before, t.tail);
    var parsed := c.(head := h, postLen := 0, chunked := app.chunked(h), buff := []);
    var x := parsed.(cgi := true, log := c.log + [Call(h, [])]);
    HandOversAppend(c.log, Call(h, []));
    if x.chunked {
      LastHandOver(app, p, t.tail, x);
    } else {
      NeverReady(app, p, t.tail, x);
    }
  }

  // ----- a request with a body -----

  /** The state in which the body is awaited. */
  function AwaitsBody(app: App, c: Conn, r: Request): Conn {
    c.(head := Head(r), postLen := |r.body|, chunked := app.chunked(Head(r)),
       buffSize := Min(|r.body|, app.maxPost), buff := [])
  }

  /** The bytes of a turn but its last one, cut at the last byte of the head. */
  lemma {:induction false} CutAtHead(r: Request, t: Turn) returns (k: nat)
    requires IsTurn(r, t) && r.head != [] && r.body != []
    ensures k < |t.before| && t.before[k].In? && InBytes(t.before[..k]) + [t.before[k].b] == r.head
    ensures InBytes(t.before[k + 1..]) + [t.tail[0].b] == r.body
  {
    var n, m := |r.head| - 1, |r.body| - 1;
    var all, last := r.head + r.body, t.tail[0].b;
    assert InBytes(t.before) == all[..|all| - 1] == r.head[..n] + ([r.head[n]] + r.body[..m]);
    assert last == all[|all| - 1] == r.body[m];
    k := SplitAt(t.before, r.head[..n], [r.head[n]] + r.body[..m]);
    assert r.head[..n] + [r.head[n]] == r.head && r.body[..m] + [last] == r.body;
  }

  /** The part of a run that brings the head, and the part that brings the body. */
  lemma {:induction false} HeadThenBody(app: App, c: Conn, r: Request, t: Turn) returns (evs: seq<Event>)
    requires Ready(c) && WellFormed(app, r) && IsTurn(r, t) && r.body != [] && Closed !in t.before + t.tail
    ensures InBytes(evs) + [t.tail[0].b] == r.body && Closed !in evs && (Sent in evs ==> Sent in t.before)
    ensures var d := AwaitsBody(app, c, r);
            && Run(app, c, t.before) == Run(app, d, evs) && (Quiet(app, c, t.before) <==> Quiet(app, d, evs))
  {
    assert r.head != [] by { assert Normal(r.head, 0) == []; }
    TurnParts(t);
    var k := CutAtHead(r, t);
    var first, e := t.before[..k], t.before[k];
    evs := t.before[k + 1..];
    assert t.before == first + ([e] + evs) && ([e] + evs)[1..] == evs;
    HeadTurn(app, c, r.head, first, e.b);
    RunConcat(app, c, first, [e] + evs);
    QuietConcat(app, c, first, [e] + evs);
  }

  lemma {:induction false} AwaitsAll(app: App, c: Conn, r: Request)
    requires Ready(c) && WellFormed(app, r) && r.body != []
    ensures var d := AwaitsBody(app, c, r);
            MidBody(d, r.body) && Owed(d, r.body) == HandOvers(c.log) + Expected(app, r)
  {
    assert [] + r.body == r.body;
    CutOfLess(r.body, app.maxPost);
  }

  /** The last byte of the body, when no call before it has ended a chunked response. */
  lemma {:induction false} LastByte(app: App, d: Conn, body: seq<byte>, evs: seq<Event>, tail: seq<Event>)
    requires MidBody(d, body) && d.buff == [] && !d.cgi && !d.closing && !d.asked
    requires tail != [] && tail[0].In? && InBytes(tail[1..]) == [] && Closed !in evs && Closed !in tail
    requires InBytes(evs) + [tail[0].b] == body && d.chunked && Quiet(app, d, evs)
    ensures var f := Run(app, Run(app, d, evs), tail);
            && HandOvers(f.log) == Owed(d, body)
            && (Ready(f) <==> !Quiet(app, Run(app, d, evs), tail))
  {
    var b := tail[0].b;
    BlocksUntilDone(app, d, evs, [b]);
    var p := Run(app, d, evs);
    assert [b] + [] == [b];
    LastOfBlock(app, p, b, []);
    LastHandOver(app, p, tail, Asked(p.(received := p.received + 1), Call(p.head, p.buff + [b])));
  }

  /** A chunked response. */
  lemma {:induction false} ChunkedTurn(app: App, d: Conn, body: seq<byte>, evs: seq<Event>, tail: seq<Event>)
    requires MidBody(d, body) && d.buff == [] && !d.cgi && !d.closing && !d.asked
    requires tail != [] && tail[0].In? && InBytes(tail[1..]) == [] && Closed !in evs && Closed !in tail
    requires InBytes(evs) + [tail[0].b] == body && d.chunked
    ensures var f := Run(app, Run(app, d, evs), tail);
            && (HandOvers(f.log) == Owed(d, body) <==> Quiet(app, d, evs))
            && (Quiet(app, d, evs) ==> (Ready(f) <==> !Quiet(app, Run(app, d, evs), tail)))
  {
    if Quiet(app, d, evs) {
      LastByte(app, d, body, evs, tail);
    } else {
      TurnParts(Turn(evs, tail));
      PartOfBodyLost(app, d, evs, tail);
      RunConcat(app, d, evs, tail);
      MassOfOwed(d, body);
    }
  }

  /** A response without chunking. */
  lemma {:induction false} UnchunkedTurn(app: App, d: Conn, body: seq<byte>, evs: seq<Event>, tail: seq<Event>)
    requires MidBody(d, body) && tail != [] && tail[0].In? && InBytes(tail[1..]) == []
    requires Closed !in evs && Closed !in tail && InBytes(evs) + [tail[0].b] == body && !d.chunked && !d.closing
    ensures var f := Run(app, Run(app, d, evs), tail);
            HandOvers(f.log) == Owed(d, body) && !Ready(f)
  {
    TurnParts(Turn(evs, tail));
    RunConcat(app, d, evs, tail);
    UnchunkedHandsAllOver(app, d, evs + tail);
    UnchunkedIsMarked(app, d, evs + tail);
  }

  lemma {:induction false} BodyTurn(app: App, c: Conn, r: Request, t: Turn)
    requires Ready(c) && WellFormed(app, r) && IsTurn(r, t) && r.body != [] && Closed !in t.before + t.tail
    ensures HandedOver(app, c, r, t) <==> !app.chunked(Head(r)) || Quiet(app, c, t.before)
    ensures Served(app, c, r, t) <==> Regular(app, c, r, t)
  {
    var evs := HeadThenBody(app, c, r, t);
    AwaitsAll(app, c, r);
    RunConcat(app, c, t.before, t.tail);
    if app.chunked(Head(r)) {
      ChunkedTurn(app, AwaitsBody(app, c, r), r.body, evs, t.tail);
    } else {
      UnchunkedTurn(app, AwaitsBody(app, c, r), r.body, evs, t.tail);
    }
  }

  /** The CGI is given the whole body, in its blocks, if and only if the response is not chunked or
      no call before the last hand-over ends it. */
  lemma {:induction false} HandedOverIff(app: App, c: Conn, r: Request, t: Turn)
    requires Ready(c) && WellFormed(app, r) && IsTurn(r, t) && Closed !in t.before + t.tail
    ensures HandedOver(app, c, r, t) <==> !app.chunked(Head(r)) || Quiet(app, c, t.before)
  {
    if r.body == [] {
      BodilessTurn(app, c, r, t);
    } else {
      BodyTurn(app, c, r, t);
    }
  }

  /** When no continuation comes before its last byte, this is known from the blocks of the body: no
      block before the last finds the CGI done. */
  lemma {:induction false} HandedOverAtOnceIff(app: App, c: Conn, r: Request, t: Turn)
    requires Ready(c) && WellFormed(app, r) && IsTurn(r, t) && Closed !in t.before + t.tail && Sent !in t.before
    ensures HandedOver(app, c, r, t) <==> !app.chunked(Head(r)) || NoneDone(app, c.log, Expected(app, r))
  {
    HandedOverIff(app, c, r, t);
    if r.body == [] {
      BodilessTurn(app, c, r, t);
    } else {
      var evs := HeadThenBody(app, c, r, t);
      OnlyReceived(evs);
      AwaitsAll(app, c, r);
      assert [] + r.body == r.body;
      CutOfLess(r.body, app.maxPost);
      QuietIff(app, AwaitsBody(app, c, r), InBytes(evs), t.tail[0].b);
    }
  }

  /** A request is served if and only if its response is chunked, no call before the last hand-over
      ends it, and one at or behind the last hand-over does, before the next request begins. */
  lemma {:induction false} ServedIffRegular(app: App, c: Conn, r: Request, t: Turn)
    requires Ready(c) && WellFormed(app, r) && IsTurn(r, t)
    ensures Served(app, c, r, t) <==> Regular(app, c, r, t)
  {
    if Closed in t.before + t.tail {
      ClosedIsGone(app, c, t.before + t.tail);
    } else if r.body == [] {
      BodilessTurn(app, c, r, t);
    } else {
      BodyTurn(app, c, r, t);
    }
  }

  // ----- requests in a row -----

  function Wire(rs: seq<Request>): seq<byte> {
    if rs == [] then [] else (rs[0].head + rs[0].body) + Wire(rs[1..])
  }

  function AllEvents(ts: seq<Turn>): seq<Event> {
    if ts == [] then [] else (ts[0].before + ts[0].tail) + AllEvents(ts[1..])
  }

  function AllExpected(app: App, rs: seq<Request>): seq<Call> {
    if rs == [] then [] else Expected(app, rs[0]) + AllExpected(app, rs[1..])
  }

  predicate AreTurns(rs: seq<Request>, ts: seq<Turn>) {
    |rs| == |ts| && forall i :: 0 <= i < |rs| ==> IsTurn(rs[i], ts[i])
  }

  /** One request after the other is served. */
  predicate AllServed(app: App, c: Conn, rs: seq<Request>, ts: seq<Turn>)
    requires |rs| == |ts|
    decreases |rs|
  {
    rs == [] || (Served(app, c, rs[0], ts[0]) && AllServed(app, AfterTurn(app, c, ts[0]), rs[1..], ts[1..]))
  }

  predicate AllRegular(app: App, c: Conn, rs: seq<Request>, ts: seq<Turn>)
    requires |rs| == |ts|
    decreases |rs|
  {
    rs == [] || (Regular(app, c, rs[0], ts[0]) && AllRegular(app, AfterTurn(app, c, ts[0]), rs[1..], ts[1..]))
  }

  lemma {:induction false} AllServedIff(app: App, c: Conn, rs: seq<Request>, ts: seq<Turn>)
    requires Ready(c) && AreTurns(rs, ts) && forall i :: 0 <= i < |rs| ==> WellFormed(app, rs[i])
    ensures AllServed(app, c, rs, ts) <==> AllRegular(app, c, rs, ts)
    decreases |rs|
  {
    if rs != [] {
      ServedIffRegular(app, c, rs[0], ts[0]);
      if Served(app, c, rs[0], ts[0]) {
        AllServedIff(app, AfterTurn(app, c, ts[0]), rs[1..], ts[1..]);
      }
    }
  }

  lemma {:induction false} ServedOnTheWire(app: App, c: Conn, rs: seq<Request>, ts: seq<Turn>)
    requires Ready(c) && |rs| == |ts| && AllServed(app, c, rs, ts)
    ensures var d := Run(app, c, AllEvents(ts));
            Ready(d) && HandOvers(d.log) == HandOvers(c.log) + AllExpected(app, rs)
    decreases |rs|
  {
    if rs != [] {
      RunConcat(app, c, ts[0].before + ts[0].tail, AllEvents(ts[1..]));
      ServedOnTheWire(app, AfterTurn(app, c, ts[0]), rs[1..], ts[1..]);
      Assoc(HandOvers(c.log), Expected(app, rs[0]), AllExpected(app, rs[1..]));
    }
  }

  lemma ThreeParts<T>(s: seq<T>, k: nat, j: nat)
    requires k < |s| && k + 1 + j <= |s|
    ensures s == s[..k] + ([s[k]] + s[k + 1..][..j]) + s[k + 1..][j..]
    ensures ([s[k]] + s[k + 1..][..j])[1..] == s[k + 1..][..j]
  {
  }

  /** The turn of the first request in a run, which ends where the next request begins. */
  lemma {:induction false} FirstTurn(r: Request, more: seq<byte>, evs: seq<Event>)
    returns (t: Turn, left: seq<Event>)
    requires r.head != [] && InBytes(evs) == r.head + r.body + more
    ensures evs == t.before + t.tail + left && IsTurn(r, t)
    ensures InBytes(left) == more && (more == [] ==> left == [])
  {
    var all := r.head + r.body;
    var n := |all| - 1;
    assert all + more == all[..n] + ([all[n]] + more) && all[..n] + [all[n]] == all;
    var k := SplitAt(evs, all[..n], [all[n]] + more);
    var behind := evs[k + 1..];
    assert InBytes(behind) == more;
    var j := |behind|;
    if more == [] {
      assert behind[..j] == behind;
    } else {
      assert [] + more == more;
      j := SplitAt(behind, [], more);
    }
    ThreeParts(evs, k, j);
    t, left := Turn(evs[..k], [evs[k]] + behind[..j]), behind[j..];
  }

  lemma {:induction false} OneMore(rs: seq<Request>, t: Turn, ts: seq<Turn>)
    requires rs != [] && AreTurns(rs[1..], ts)
    ensures AllEvents([t] + ts) == t.before + t.tail + AllEvents(ts)
    ensures IsTurn(rs[0], t) ==> AreTurns(rs, [t] + ts)
  {
    var all := [t] + ts;
    assert all[1..] == ts;
    if IsTurn(rs[0], t) {
      forall i | 0 <= i < |rs| ensures IsTurn(rs[i], all[i]) {
        assert i > 0 ==> rs[i] == rs[1..][i - 1] && all[i] == ts[i - 1];
      }
    }
  }

  /** Every run that brings these requests is one turn after the other. */
  lemma {:induction false} TurnsExist(rs: seq<Request>, evs: seq<Event>) returns (ts: seq<Turn>)
    requires rs != [] && InBytes(evs) == Wire(rs) && forall i :: 0 <= i < |rs| ==> rs[i].head != []
    ensures AllEvents(ts) == evs && AreTurns(rs, ts)
    decreases |rs|
  {
    var t, left := FirstTurn(rs[0], Wire(rs[1..]), evs);
    if |rs| == 1 {
      assert rs[1..] == [];
      ts := [t];
    } else {
      ts := TurnsExist(rs[1..], left);
      OneMore(rs, t, ts);
      ts := [t] + ts;
    }
  }

  /** For every sequence of such requests on one connection, and every run of callbacks that brings
      them, the CGI is handed each head in normal form with the blocks of its body, in order, and
      the connection is ready for the next request, if and only if each turn is regular. */
  lemma {:induction false} RequestsInARow(app: App, c: Conn, rs: seq<Request>, evs: seq<Event>)
    returns (ts: seq<Turn>)
    requires Ready(c) && rs != [] && InBytes(evs) == Wire(rs)
    requires forall i :: 0 <= i < |rs| ==> WellFormed(app, rs[i])
    ensures AreTurns(rs, ts) && AllEvents(ts) == evs
    ensures AllServed(app, c, rs, ts) <==> AllRegular(app, c, rs, ts)
    ensures AllRegular(app, c, rs, ts) ==> Ready(Run(app, c, evs))
    ensures AllRegular(app, c, rs, ts) ==>
              HandOvers(Run(app, c, evs).log) == HandOvers(c.log) + AllExpected(app, rs)
  {
    forall i | 0 <= i < |rs| ensures rs[i].head != [] {
      assert Normal(rs[i].head, 0) == [];
    }
    ts := TurnsExist(rs, evs);
    AllServedIff(app, c, rs, ts);
    if AllRegular(app, c, rs, ts) {
      ServedOnTheWire(app, c, rs, ts);
    }
  }

  // ----- examples -----

  const G_HEAD: seq<byte> := [71, LF, LF]
  const G_NORMAL: seq<byte> := [71, CR, LF, CR, LF]

  lemma GHeadIsHead()
    ensures IsHead(G_HEAD) && Normal(G_HEAD, 3) == G_NORMAL
  {
    var b := G_HEAD;
    assert Normal(b, 0) == [] && Normal(b, 1) == [71] && Normal(b, 2) == [71, CR, LF];
    assert Normal(b, 3) == G_NORMAL;
    assert b[..3] == b && !EndsBlank(Normal(b, 2));
  }

  /** "G" and two line feeds, received on a fresh connection. */
  lemma {:induction false} AfterGHead(app: App, more: seq<byte>)
    ensures Run(app, Fresh, Received(G_HEAD + more)) == After(app, EndHead(app, Fresh.(head := G_NORMAL)), more)
  {
    ReceivedIsAfter(app, Fresh, G_HEAD + more);
    AfterConcat(app, Fresh, G_HEAD, more);
    GHeadIsHead();
    HeadEnds(app, Fresh, G_HEAD);
  }

  lemma {:induction false} AfterTwo(app: App, c: Conn, a: byte, b: byte)
    ensures After(app, c, [a, b]) == Step(app, Step(app, c, a), b)
  {
    assert [a, b][1..] == [b] && [b][1..] == [];
    assert After(app, Step(app, c, a), [b]) == After(app, Step(app, Step(app, c, a), b), []);
  }

  /** A CGI that is done whenever it is called, two bytes of body and room for one. */
  const CHUNKED := App(h => Some(2), h => true, log => true, 1)
  const PLAIN := App(h => Some(2), h => false, log => true, 1)

  /** With chunking the second byte of the body is the start of a head; without it, it is handed
      over. */
  lemma {:induction false} ExampleDoneEarly(a: byte, b: byte)
    ensures Run(CHUNKED, Fresh, Received(G_HEAD + [a, b]))
         == Fresh.(head := [b], buffSize := 1, log := [Call(G_NORMAL, [a])])
    ensures Run(PLAIN, Fresh, Received(G_HEAD + [a, b])).log == [Call(G_NORMAL, [a]), Call(G_NORMAL, [b])]
  {
    var h := Fresh.(head := G_NORMAL);
    AfterGHead(CHUNKED, [a, b]);
    AfterGHead(PLAIN, [a, b]);
    AfterTwo(CHUNKED, EndHead(CHUNKED, h), a, b);
    AfterTwo(PLAIN, EndHead(PLAIN, h), a, b);
    assert [] + [a] == [a] && [] + [b] == [b] && !HasBlankLine([b], 1);
  }

  /** No body, and a CGI that is done when it is called for the second time. */
  const SECOND := App(h => None, h => true, log => |log| >= 2, 1)

  /** The continuation makes the connection ready for the next request. */
  lemma {:induction false} ExampleContinued()
    ensures !Ready(Run(SECOND, Fresh, Received(G_HEAD)))
    ensures Run(SECOND, Fresh, Received(G_HEAD) + [Sent])
         == Fresh.(log := [Call(G_NORMAL, []), Again(G_NORMAL, [])])
  {
    assert G_HEAD + [] == G_HEAD;
    AfterGHead(SECOND, []);
    RunConcat(SECOND, Fresh, Received(G_HEAD), [Sent]);
    var d := Run(SECOND, Fresh, Received(G_HEAD));
    assert d == Fresh.(head := G_NORMAL, postLen := 0, chunked := true, cgi := true, log := [Call(G_NORMAL, [])]);
    assert Run(SECOND, d, [Sent]) == Run(SECOND, React(SECOND, d, Sent), []);
  }
}
