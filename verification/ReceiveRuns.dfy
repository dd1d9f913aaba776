/** Bodies on a connection of httpd.c, over every run of events: which blocks the CGI is given, and
    what becomes of a body whose CGI is done before the body is. */
module ReceiveRuns {
  import opened Bytes
  import opened ReceiveModel

  // ----- the blocks of a body -----

  /** The blocks of a body: full ones, then what is left. */
  function Cut(body: seq<byte>, size: nat): (blocks: seq<seq<byte>>)
    requires size > 0
    decreases |body|
  {
    if |body| <= size then [body] else [body[..size]] + Cut(body[size..], size)
  }

  function Calls(head: seq<byte>, blocks: seq<seq<byte>>): seq<Call> {
    if blocks == [] then [] else [Call(head, blocks[0])] + Calls(head, blocks[1..])
  }

  lemma {:induction false} CutIsWhole(body: seq<byte>, size: nat)
    requires size > 0
    ensures Concat(Cut(body, size)) == body && |Cut(body, size)| > 0
    ensures forall i :: 0 <= i < |Cut(body, size)| - 1 ==> |Cut(body, size)[i]| == size
    ensures |Cut(body, size)[|Cut(body, size)| - 1]| <= size
    ensures body != [] ==> Cut(body, size)[|Cut(body, size)| - 1] != []
    decreases |body|
  {
    var cut := Cut(body, size);
    if |body| <= size {
      assert cut[1..] == [];
      assert body + [] == body;
    } else {
      CutIsWhole(body[size..], size);
      assert cut[1..] == Cut(body[size..], size);
      assert body[..size] + body[size..] == body;
    }
  }

  lemma {:induction false} CallsSplit(head: seq<byte>, rest: seq<byte>, size: nat)
    requires 0 < size < |rest|
    ensures Calls(head, Cut(rest, size)) == [Call(head, rest[..size])] + Calls(head, Cut(rest[size..], size))
  {
    assert Cut(rest, size)[1..] == Cut(rest[size..], size);
  }

  lemma {:induction false} CallsOfOne(head: seq<byte>, block: seq<byte>)
    ensures Calls(head, [block]) == [Call(head, block)]
  {
    assert Calls(head, [block]) == [Call(head, block)] + Calls(head, []);
  }

  /** The calls that hand over what has been received. */
  function HandOvers(log: seq<Call>): seq<Call> {
    if log == [] then []
    else
      var n := |log| - 1;
      if log[n].Call? then HandOvers(log[..n]) + [log[n]] else HandOvers(log[..n])
  }

  lemma {:induction false} HandOversAppend(log: seq<Call>, call: Call)
    ensures HandOvers(log + [call]) == if call.Call? then HandOvers(log) + [call] else HandOvers(log)
  {
    assert (log + [call])[..|log|] == log;
  }

  // ----- runs -----

  /** The bytes that a run brings. */
  function InBytes(evs: seq<Event>): seq<byte> {
    if evs == [] then [] else (if evs[0].In? then [evs[0].b] else []) + InBytes(evs[1..])
  }

  lemma {:induction false} InBytesConcat(a: seq<Event>, b: seq<Event>)
    ensures InBytes(a + b) == InBytes(a) + InBytes(b)
  {
    if a == [] {
      assert a + b == b;
    } else {
      assert (a + b)[0] == a[0] && (a + b)[1..] == a[1..] + b;
      InBytesConcat(a[1..], b);
    }
  }

  function Received(data: seq<byte>): seq<Event> {
    if data == [] then [] else [In(data[0])] + Received(data[1..])
  }

  /** A callback with several bytes is a run of its bytes. */
  lemma {:induction false} ReceivedIsAfter(app: App, c: Conn, data: seq<byte>)
    requires !c.gone
    ensures Run(app, c, Received(data)) == After(app, c, data) && !After(app, c, data).gone
    decreases |data|
  {
    if data != [] {
      assert Received(data)[1..] == Received(data[1..]);
      ReceivedIsAfter(app, Step(app, c, data[0]), data[1..]);
    }
  }

  /** The event calls the CGI, which says that it is done. */
  predicate Finishes(app: App, c: Conn, e: Event) {
    !e.Closed? && |React(app, c, e).log| > |c.log| && app.done(React(app, c, e).log)
  }

  /** No call in this run ends the request. */
  predicate Quiet(app: App, c: Conn, evs: seq<Event>)
    decreases |evs|
  {
    evs == [] || (!Finishes(app, c, evs[0]) && Quiet(app, React(app, c, evs[0]), evs[1..]))
  }

  lemma {:induction false} QuietConcat(app: App, c: Conn, a: seq<Event>, b: seq<Event>)
    ensures Quiet(app, c, a + b) <==> Quiet(app, c, a) && Quiet(app, Run(app, c, a), b)
    decreases |a|
  {
    if a == [] {
      assert a + b == b;
    } else {
      assert (a + b)[0] == a[0] && (a + b)[1..] == a[1..] + b;
      QuietConcat(app, React(app, c, a[0]), a[1..], b);
    }
  }

  /** A connection that is gone stays as it is. */
  lemma {:induction false} GoneStays(app: App, c: Conn, evs: seq<Event>)
    requires c.gone
    ensures Run(app, c, evs) == c
    decreases |evs|
  {
    if evs != [] {
      GoneStays(app, c, evs[1..]);
    }
  }

  lemma {:induction false} ClosedIsGone(app: App, c: Conn, evs: seq<Event>)
    requires Closed in evs
    ensures Run(app, c, evs).gone
    decreases |evs|
  {
    if c.gone {
      GoneStays(app, c, evs);
    } else if evs[0].Closed? {
      GoneStays(app, React(app, c, Closed), evs[1..]);
    } else {
      ClosedIsGone(app, React(app, c, evs[0]), evs[1..]);
    }
  }

  // ----- the end of a connection -----

  /** The last call there was has not ended its request. */
  predicate Pending(app: App, log: seq<Call>) {
    log != [] && !app.done(log)
  }

  /** The CGI is set exactly while the last call of it has not ended the request. */
  lemma {:induction false} CgiIsPending(app: App, c: Conn, evs: seq<Event>)
    requires !c.gone && (c.cgi <==> Pending(app, c.log)) && Closed !in evs
    ensures var d := Run(app, c, evs);
            !d.gone && (d.cgi <==> Pending(app, d.log))
    decreases |evs|
  {
    if evs != [] {
      var d := React(app, c, evs[0]);
      CallIsLast(app, c, evs[0]);
      CgiIsPending(app, d, evs[1..]);
    }
  }

  lemma {:induction false} AnswerIsLast(app: App, c: Conn)
    requires c.cgi && c.log != []
    ensures var d := Answered(app, c);
            d.log == c.log && d.gone == c.gone && (d.cgi <==> Pending(app, d.log))
  {
  }

  lemma {:induction false} CallIsLast(app: App, c: Conn, e: Event)
    requires !c.gone && (c.cgi <==> Pending(app, c.log)) && !e.Closed?
    ensures var d := React(app, c, e);
            !d.gone && (d.cgi <==> Pending(app, d.log))
  {
    if e.Sent? {
      AnswerIsLast(app, c.(cgi := true, log := c.log + [Again(c.head, c.buff)]));
    } else if c.postLen < 0 {
      EndHeadIsLast(app, c.(head := Collected(c.head, e.b)));
    } else if c.postLen != 0 {
      var c' := c.(buff := c.buff + [e.b], received := c.received + 1);
      AnswerIsLast(app, c'.(cgi := true, log := c.log + [Call(c.head, c'.buff)]));
    }
  }

  lemma {:induction false} EndHeadIsLast(app: App, c: Conn)
    requires !c.gone && (c.cgi <==> Pending(app, c.log))
    ensures var d := EndHead(app, c);
            !d.gone && (d.cgi <==> Pending(app, d.log))
  {
    var parsed := c.(postLen := 0, chunked := app.chunked(c.head), buff := []);
    AnswerIsLast(app, parsed.(cgi := true, log := c.log + [Call(c.head, [])]));
  }

  /** When the connection is closed, whatever came before and whatever comes after: the CGI is told,
      once and with the head it serves, if its last call has not ended the request, and not
      otherwise. */
  lemma {:induction false} ClosedTellsOnce(app: App, evs: seq<Event>, more: seq<Event>)
    requires Closed !in evs
    ensures var c, d := Run(app, Fresh, evs), Run(app, Fresh, evs + [Closed] + more);
            && d.gone
            && d.log == c.log + (if Pending(app, c.log) then [Farewell(c.head, c.buff)] else [])
  {
    var c := Run(app, Fresh, evs);
    CgiIsPending(app, Fresh, evs);
    RunConcat(app, Fresh, evs, [Closed]);
    assert Run(app, c, [Closed]) == Run(app, Disconnect(c), []);
    RunConcat(app, Fresh, evs + [Closed], more);
    GoneStays(app, Disconnect(c), more);
  }

  // ----- in the body -----

  /** `rest` is what the body still lacks. */
  predicate MidBody(c: Conn, rest: seq<byte>) {
    !c.gone && rest != [] && c.received + |rest| == c.postLen && |c.buff| < c.buffSize
  }

  /** The calls made so far that hand something over, and those due for the rest of the body. */
  function Owed(c: Conn, rest: seq<byte>): seq<Call>
    requires c.buffSize > 0
  {
    HandOvers(c.log) + Calls(c.head, Cut(c.buff + rest, c.buffSize))
  }

  /** The same request, still in its body or behind it. */
  predicate Same(c: Conn, d: Conn) {
    && d.head == c.head && d.postLen == c.postLen && d.buffSize == c.buffSize && d.chunked == c.chunked
    && d.gone == c.gone && (c.chunked && !c.closing ==> !d.closing && d.asked == c.asked)
  }

  /** The CGI has been called, and has not answered yet. */
  function Asked(c: Conn, call: Call): Conn {
    c.(cgi := true, buff := [], log := c.log + [call])
  }

  lemma {:induction false} CallsAndAnswers(app: App, c: Conn)
    ensures CallCgi(app, c).(buff := []) == Answered(app, Asked(c, Call(c.head, c.buff)))
  {
  }

  lemma {:induction false} ByteInBlock(app: App, c: Conn, b: byte, rest: seq<byte>)
    requires MidBody(c, [b] + rest) && rest != [] && |c.buff| + 1 < c.buffSize
    ensures var d := Step(app, c, b);
            && d == c.(buff := c.buff + [b], received := c.received + 1)
            && MidBody(d, rest) && Owed(d, rest) == Owed(c, [b] + rest)
  {
    assert c.buff + ([b] + rest) == (c.buff + [b]) + rest;
  }

  /** A block is handed over as soon as the buffer is full or the body complete. */
  lemma {:induction false} LastOfBlock(app: App, c: Conn, b: byte, rest: seq<byte>)
    requires MidBody(c, [b] + rest) && (rest == [] || |c.buff| + 1 == c.buffSize)
    ensures var x := Asked(c.(received := c.received + 1), Call(c.head, c.buff + [b]));
            && Step(app, c, b) == Answered(app, x)
            && HandOvers(x.log) == HandOvers(c.log) + [Call(c.head, c.buff + [b])]
            && (if rest == [] then HandOvers(x.log) else Owed(x, rest)) == Owed(c, [b] + rest)
  {
    var call := Call(c.head, c.buff + [b]);
    var all := c.buff + ([b] + rest);
    CallsAndAnswers(app, c.(buff := c.buff + [b], received := c.received + 1));
    HandOversAppend(c.log, call);
    if rest == [] {
      assert all == c.buff + [b];
      CallsOfOne(c.head, all);
    } else {
      CallsSplit(c.head, all, c.buffSize);
      assert all[..c.buffSize] == c.buff + [b] && all[c.buffSize..] == [] + rest;
      Assoc(HandOvers(c.log), [call], Calls(c.head, Cut([] + rest, c.buffSize)));
    }
  }

  /** One byte of a body: what is owed to the CGI stays the same, unless the byte ends a chunked
      response. */
  lemma {:induction false} ByteInBody(app: App, c: Conn, b: byte, rest: seq<byte>)
    requires MidBody(c, [b] + rest) && (c.chunked ==> !Finishes(app, c, In(b)))
    ensures var d := React(app, c, In(b));
            && Same(c, d)
            && (rest != [] ==> MidBody(d, rest))
            && (if rest == [] then HandOvers(d.log) else Owed(d, rest)) == Owed(c, [b] + rest)
  {
    if rest == [] || |c.buff| + 1 == c.buffSize {
      LastOfBlock(app, c, b, rest);
    } else {
      ByteInBlock(app, c, b, rest);
    }
  }

  /** A continuation hands nothing over. */
  lemma {:induction false} SentInBody(app: App, c: Conn)
    requires !c.gone && (c.chunked ==> !Finishes(app, c, Sent))
    ensures var d := React(app, c, Sent);
            Same(c, d) && HandOvers(d.log) == HandOvers(c.log) && d.buff == c.buff && d.received == c.received
  {
    HandOversAppend(c.log, Again(c.head, c.buff));
  }

  /** While no call ends a chunked response, every run inside the body keeps what is owed. */
  lemma {:induction false} BlocksUntilDone(app: App, c: Conn, evs: seq<Event>, rest: seq<byte>)
    requires MidBody(c, InBytes(evs) + rest) && rest != [] && Closed !in evs
    requires c.chunked ==> Quiet(app, c, evs)
    ensures var d := Run(app, c, evs);
            Same(c, d) && MidBody(d, rest) && Owed(d, rest) == Owed(c, InBytes(evs) + rest)
    decreases |evs|
  {
    if evs == [] {
      assert [] + rest == rest;
    } else {
      var more := InBytes(evs[1..]) + rest;
      if evs[0].In? {
        assert InBytes(evs) + rest == [evs[0].b] + more;
        ByteInBody(app, c, evs[0].b, more);
      } else {
        assert [] + InBytes(evs[1..]) == InBytes(evs[1..]);
        SentInBody(app, c);
      }
      BlocksUntilDone(app, React(app, c, evs[0]), evs[1..], rest);
    }
  }

  /** Behind the body, continuations hand nothing over. */
  lemma {:induction false} SentsBehind(app: App, c: Conn, sents: seq<Event>)
    requires !c.gone && InBytes(sents) == [] && Closed !in sents && (c.chunked ==> Quiet(app, c, sents))
    ensures var d := Run(app, c, sents);
            Same(c, d) && HandOvers(d.log) == HandOvers(c.log)
    decreases |sents|
  {
    if sents != [] {
      SentInBody(app, c);
      SentsBehind(app, React(app, c, sents[0]), sents[1..]);
    }
  }

  /** A run over the whole body in which no call ends a chunked response: the CGI is given exactly
      its blocks. */
  lemma {:induction false} BodyCalls(app: App, c: Conn, evs: seq<Event>)
    requires MidBody(c, InBytes(evs)) && Closed !in evs && (c.chunked ==> Quiet(app, c, evs))
    ensures var d := Run(app, c, evs);
            Same(c, d) && HandOvers(d.log) == Owed(c, InBytes(evs))
    decreases |evs|
  {
    var d, more := React(app, c, evs[0]), InBytes(evs[1..]);
    if evs[0].In? {
      assert InBytes(evs) == [evs[0].b] + more;
      ByteInBody(app, c, evs[0].b, more);
    } else {
      assert [] + more == more;
      SentInBody(app, c);
    }
    if more == [] {
      SentsBehind(app, d, evs[1..]);
    } else {
      BodyCalls(app, d, evs[1..]);
    }
  }

  // ----- without chunking -----

  /** A response without chunking is marked for destruction exactly when some call is done, and the
      connection is never ready for another request. */
  lemma {:induction false} UnchunkedIsMarked(app: App, c: Conn, evs: seq<Event>)
    requires !c.chunked && c.postLen >= 0
    ensures var d := Run(app, c, evs);
            && !d.chunked && d.postLen >= 0
            && (Closed !in evs && !c.gone ==> (d.closing <==> c.closing || !Quiet(app, c, evs)))
    decreases |evs|
  {
    if evs != [] {
      UnchunkedIsMarked(app, React(app, c, evs[0]), evs[1..]);
    }
  }

  /** Without chunking, being done changes nothing for the body: until the connection is closed,
      every block is handed over, also those behind a DONE, where the CGI is looked up anew and
      called again. */
  lemma {:induction false} UnchunkedHandsAllOver(app: App, c: Conn, evs: seq<Event>)
    requires MidBody(c, InBytes(evs)) && Closed !in evs && !c.chunked && !c.closing
    ensures var d := Run(app, c, evs);
            HandOvers(d.log) == Owed(c, InBytes(evs)) && (d.closing <==> !Quiet(app, c, evs))
  {
    BodyCalls(app, c, evs);
    UnchunkedIsMarked(app, c, evs);
  }

  /** Data sent on a connection that is marked: the platform is asked to disconnect it, and no CGI
      is called; until it does, the blocks that still arrive are handed over. */
  lemma {:induction false} LeftIsHandedOver(app: App, c: Conn, evs: seq<Event>)
    requires MidBody(c, InBytes(evs)) && Closed !in evs && !c.chunked && c.closing
    ensures React(app, c, Sent) == c.(asked := true)
    ensures HandOvers(Run(app, c, [Sent] + evs).log) == Owed(c, InBytes(evs))
    ensures Calls(c.head, Cut(c.buff + InBytes(evs), c.buffSize)) != []
  {
    var run := [Sent] + evs;
    assert run[0] == Sent && run[1..] == evs;
    BodyCalls(app, React(app, c, Sent), evs);
  }

  // ----- with chunking -----

  predicate Ready(c: Conn) {
    && AwaitsHead(c) && c.buff == [] && c.received == 0
    && !c.cgi && !c.chunked && !c.closing && !c.asked && !c.gone
  }

  /** A call that ends a chunked response frees the connection; what is in the buffer is dropped. */
  lemma {:induction false} EndsInBody(app: App, c: Conn, e: Event, rest: seq<byte>)
    requires MidBody(c, InBytes([e]) + rest) && c.chunked && !c.closing && !c.asked && Finishes(app, c, e)
    ensures var next := React(app, c, e);
            && Ready(next)
            && HandOvers(next.log) == HandOvers(c.log) + (if e.In? then [Call(c.head, c.buff + [e.b])] else [])
  {
    if e.In? {
      assert InBytes([e]) == [e.b] + InBytes([]);
      if rest == [] || |c.buff| + 1 == c.buffSize {
        assert [e.b] + [] == [e.b];
        LastOfBlock(app, c, e.b, rest);
      } else {
        ByteInBlock(app, c, e.b, rest);
      }
    } else {
      HandOversAppend(c.log, Again(c.head, c.buff));
    }
  }

  /** A call that ends a chunked response before its body is complete, be it a hand-over or a
      continuation: what has been handed over is a part of the body, what is in the buffer is
      dropped, and the rest of the run is read as from the next head on. */
  lemma {:induction false} LeftIsReadAsHead(app: App, c: Conn, evs: seq<Event>, e: Event, more: seq<Event>)
    requires MidBody(c, InBytes(evs + [e] + more)) && InBytes(more) != [] && c.chunked && !c.asked && !c.closing
    requires Closed !in evs && Quiet(app, c, evs) && Finishes(app, Run(app, c, evs), e)
    ensures var d := Run(app, c, evs);
            var next := Run(app, c, evs + [e]);
            && MidBody(d, InBytes([e] + more)) && Owed(d, InBytes([e] + more)) == Owed(c, InBytes(evs + [e] + more))
            && HandOvers(next.log) == HandOvers(d.log) + (if e.In? then [Call(c.head, d.buff + [e.b])] else [])
            && Ready(next) && Run(app, c, evs + [e] + more) == Run(app, next, more)
  {
    var d := Run(app, c, evs);
    assert evs + [e] + more == evs + ([e] + more);
    InBytesConcat(evs, [e] + more);
    InBytesConcat([e], more);
    BlocksUntilDone(app, c, evs, InBytes([e] + more));
    RunConcat(app, c, evs, [e]);
    assert Run(app, d, [e]) == Run(app, React(app, d, e), []);
    EndsInBody(app, d, e, InBytes(more));
    RunConcat(app, c, evs + [e], more);
  }

  // ----- how much is handed over -----

  /** Bytes handed over by some calls. */
  function Handed(calls: seq<Call>): nat {
    if calls == [] then 0 else |calls[0].block| + Handed(calls[1..])
  }

  lemma {:induction false} HandedConcat(a: seq<Call>, b: seq<Call>)
    ensures Handed(a + b) == Handed(a) + Handed(b)
  {
    if a == [] {
      assert a + b == b;
    } else {
      assert (a + b)[0] == a[0] && (a + b)[1..] == a[1..] + b;
      HandedConcat(a[1..], b);
    }
  }

  lemma {:induction false} HandedOfCalls(head: seq<byte>, blocks: seq<seq<byte>>)
    ensures Handed(Calls(head, blocks)) == |Concat(blocks)|
  {
    if blocks != [] {
      HandedOfCalls(head, blocks[1..]);
      assert Calls(head, blocks)[1..] == Calls(head, blocks[1..]);
    }
  }

  /** Bytes handed over or waiting in the buffer. */
  function Mass(c: Conn): nat {
    Handed(HandOvers(c.log)) + |c.buff|
  }

  lemma {:induction false} MassOfOwed(c: Conn, rest: seq<byte>)
    requires c.buffSize > 0
    ensures Handed(Owed(c, rest)) == Mass(c) + |rest|
  {
    var cut := Cut(c.buff + rest, c.buffSize);
    HandedConcat(HandOvers(c.log), Calls(c.head, cut));
    HandedOfCalls(c.head, cut);
    CutIsWhole(c.buff + rest, c.buffSize);
  }

  /** No call makes bytes out of nothing. */
  lemma {:induction false} MassOfAnswer(app: App, c: Conn, call: Call)
    ensures var x := Answered(app, c.(log := c.log + [call]));
            && Handed(HandOvers(x.log)) == Handed(HandOvers(c.log)) + (if call.Call? then |call.block| else 0)
            && |x.buff| <= |c.buff| && (x.postLen < 0 ==> x.buff == [] || (x.postLen == c.postLen && x.buff == c.buff))
  {
    HandOversAppend(c.log, call);
    HandedConcat(HandOvers(c.log), [call]);
    assert [call][1..] == [];
  }

  lemma {:induction false} MassOfCall(app: App, c: Conn)
    requires c.buff == []
    ensures Mass(CallCgi(app, c)) == Mass(c) && CallCgi(app, c).buff == []
  {
    MassOfAnswer(app, c.(cgi := true), Call(c.head, []));
  }

  lemma {:induction false} MassOfEndHead(app: App, c: Conn)
    requires c.buff == []
    ensures Mass(EndHead(app, c)) == Mass(c) && EndHead(app, c).buff == []
  {
    var length := app.length(c.head);
    if length.None? || length.value == 0 {
      MassOfCall(app, c.(postLen := 0, chunked := app.chunked(c.head)));
    }
  }

  /** Only a byte of a body adds anything. */
  lemma {:induction false} MassOfHeadByte(app: App, c: Conn, b: byte)
    requires c.buff == []
    ensures Mass(HeadByte(app, c, b)) == Mass(c) && HeadByte(app, c, b).buff == []
  {
    MassOfEndHead(app, c.(head := Collected(c.head, b)));
  }

  lemma {:induction false} MassOfBodyByte(app: App, c: Conn, b: byte)
    requires c.postLen >= 0
    ensures Mass(BodyByte(app, c, b)) <= Mass(c) + 1
    ensures BodyByte(app, c, b).postLen < 0 ==> BodyByte(app, c, b).buff == []
  {
    var c' := c.(buff := c.buff + [b], received := c.received + 1, cgi := true);
    MassOfAnswer(app, c', Call(c.head, c'.buff));
  }

  lemma {:induction false} MassOfEvent(app: App, c: Conn, e: Event)
    requires c.postLen < 0 ==> c.buff == []
    ensures var d := React(app, c, e);
            Mass(d) <= Mass(c) + |InBytes([e])| && (d.postLen < 0 ==> d.buff == [])
  {
    assert InBytes([e]) == (if e.In? then [e.b] else []) + InBytes([]);
    match e
    case In(b) =>
      if !c.gone && c.postLen < 0 {
        MassOfHeadByte(app, c, b);
      } else if !c.gone && c.postLen != 0 {
        MassOfBodyByte(app, c, b);
      }
    case Sent =>
      MassOfAnswer(app, c, Again(c.head, c.buff));
    case Closed =>
      HandOversAppend(c.log, Farewell(c.head, c.buff));
  }

  lemma {:induction false} FirstEvent(evs: seq<Event>)
    requires evs != []
    ensures InBytes(evs) == InBytes([evs[0]]) + InBytes(evs[1..])
  {
    assert [evs[0]] + evs[1..] == evs;
    InBytesConcat([evs[0]], evs[1..]);
  }

  lemma {:induction false} MassOfRun(app: App, c: Conn, evs: seq<Event>)
    requires c.postLen < 0 ==> c.buff == []
    ensures Mass(Run(app, c, evs)) <= Mass(c) + |InBytes(evs)|
    decreases |evs|
  {
    if evs != [] {
      MassOfEvent(app, c, evs[0]);
      FirstEvent(evs);
      MassOfRun(app, React(app, c, evs[0]), evs[1..]);
    }
  }

  /** From a connection that is ready for a request, the first byte is never handed over. */
  lemma {:induction false} MassFromReady(app: App, c: Conn, evs: seq<Event>)
    requires Ready(c) && InBytes(evs) != []
    ensures Mass(Run(app, c, evs)) < Mass(c) + |InBytes(evs)|
    decreases |evs|
  {
    FirstEvent(evs);
    var d := React(app, c, evs[0]);
    match evs[0]
    case In(b) =>
      MassOfHeadByte(app, c, b);
      MassOfRun(app, d, evs[1..]);
      assert InBytes([In(b)]) == [b] + InBytes([]);
    case Sent =>
      MassFromReady(app, c, evs[1..]);
    case Closed =>
      GoneStays(app, d, evs[1..]);
  }

  /** A body of which a part is read as a head is not handed over whole. */
  lemma {:induction false} PartOfBodyLost(app: App, c: Conn, evs: seq<Event>, more: seq<Event>)
    requires MidBody(c, InBytes(evs) + InBytes(more)) && InBytes(more) != [] && Closed !in evs
    requires c.chunked && !c.asked && !c.closing && !Quiet(app, c, evs)
    ensures Mass(Run(app, c, evs + more)) < Mass(c) + |InBytes(evs + more)|
    decreases |evs|
  {
    var e, d, rest := evs[0], React(app, c, evs[0]), InBytes(evs[1..]) + InBytes(more);
    assert (evs + more)[0] == e && (evs + more)[1..] == evs[1..] + more;
    InBytesConcat(evs, more);
    InBytesConcat(evs[1..], more);
    FirstEvent(evs);
    assert InBytes(evs) + InBytes(more) == InBytes([e]) + rest;
    MassOfEvent(app, c, e);
    if Finishes(app, c, e) {
      EndsInBody(app, c, e, rest);
      MassFromReady(app, d, evs[1..] + more);
    } else {
      if e.In? {
        assert InBytes([e]) == [e.b] + InBytes([]);
        assert InBytes([e]) + rest == [e.b] + rest;
        ByteInBody(app, c, e.b, rest);
      } else {
        assert InBytes([e]) + rest == rest;
        SentInBody(app, c);
      }
      PartOfBodyLost(app, d, evs[1..], more);
    }
  }

  // ----- bodies that arrive with no continuation in between -----

  lemma {:induction false} OnlyReceived(evs: seq<Event>)
    requires Sent !in evs && Closed !in evs
    ensures evs == Received(InBytes(evs))
  {
    if evs != [] {
      assert evs[0] in evs && evs[0].In?;
      OnlyReceived(evs[1..]);
      assert InBytes(evs) == [evs[0].b] + InBytes(evs[1..]);
      assert InBytes(evs)[1..] == InBytes(evs[1..]);
      assert evs == [evs[0]] + evs[1..];
    }
  }

  /** Before the last of these calls, none ends the request. */
  predicate NoneDone(app: App, log: seq<Call>, calls: seq<Call>) {
    forall k :: 0 < k < |calls| ==> !app.done(log + calls[..k])
  }

  lemma {:induction false} NoneDoneCons(app: App, log: seq<Call>, call: Call, calls: seq<Call>)
    requires calls != []
    ensures NoneDone(app, log, [call] + calls) <==> !app.done(log + [call]) && NoneDone(app, log + [call], calls)
  {
    var all := [call] + calls;
    assert all[..1] == [call];
    forall k | 0 < k < |calls| ensures log + all[..k + 1] == log + [call] + calls[..k] {
      assert all[..k + 1] == [call] + calls[..k];
    }
    if !app.done(log + [call]) && NoneDone(app, log + [call], calls) {
      forall k | 0 < k < |all| ensures !app.done(log + all[..k]) {
        assert k > 1 ==> log + all[..(k - 1) + 1] == log + [call] + calls[..k - 1];
      }
    }
  }

  /** The calls owed from the start of a block on, its block first. */
  lemma {:induction false} OwedCalls(c: Conn, b: byte, rest: seq<byte>)
    requires |c.buff| + 1 == c.buffSize && rest != []
    ensures Calls(c.head, Cut(c.buff + ([b] + rest), c.buffSize)) ==
            [Call(c.head, c.buff + [b])] + Calls(c.head, Cut([] + rest, c.buffSize))
    ensures Calls(c.head, Cut([] + rest, c.buffSize)) != []
  {
    var all := c.buff + ([b] + rest);
    assert all[..c.buffSize] == c.buff + [b] && all[c.buffSize..] == [] + rest;
    CallsSplit(c.head, all, c.buffSize);
    CutIsWhole([] + rest, c.buffSize);
  }

  /** When the body arrives with no continuation in between, its blocks are all the calls, and the
      run up to its last byte is quiet exactly when none before the last block ends the request. */
  lemma {:induction false} QuietIff(app: App, c: Conn, data: seq<byte>, last: byte)
    requires MidBody(c, data + [last])
    ensures Quiet(app, c, Received(data))
       <==> NoneDone(app, c.log, Calls(c.head, Cut(c.buff + (data + [last]), c.buffSize)))
    decreases |data|
  {
    if data == [] {
      assert [] + [last] == [last];
      CallsOfOne(c.head, c.buff + [last]);
    } else {
      var b, more := data[0], data[1..];
      var rest := more + [last];
      assert data + [last] == [b] + rest && Received(data)[1..] == Received(more);
      if |c.buff| + 1 < c.buffSize {
        ByteInBlock(app, c, b, rest);
        assert c.buff + ([b] + rest) == (c.buff + [b]) + rest;
        QuietIff(app, Step(app, c, b), more, last);
      } else {
        LastOfBlock(app, c, b, rest);
        OwedCalls(c, b, rest);
        NoneDoneCons(app, c.log, Call(c.head, c.buff + [b]), Calls(c.head, Cut([] + rest, c.buffSize)));
        if !Finishes(app, c, In(b)) {
          QuietIff(app, Step(app, c, b), more, last);
        }
      }
    }
  }
}
