/** The send side of an httpd.c connection on values: the buffered bytes, the chunk header that
    is open in them, and everything flushed so far. */
module SendModel {
  import opened Options
  import opened Bytes
  import opened ChunkedCoding

  const HEADER_ROOM: seq<byte> := [48, 48, 48, 48] + CRLF   // "0000\r\n"

  /** `max`: HTTPD_MAX_SENDBUFF_LEN.  `hdr`: chunkHdr, as an offset into the send buffer.
      `out`: the flushed blocks, in flush order, whether sent at once or queued. */
  datatype State = State(max: nat, buf: seq<byte>, hdr: Option<nat>, chunked: bool,
                         sendingBody: bool, cgi: bool, open: bool, out: seq<byte>)

  /** httpdSend, with the value it returns. */
  function Send(st: State, data: seq<byte>): (State, bool) {
    if !st.open || data == [] then (st, false)
    else if st.chunked && st.sendingBody && st.hdr.None? then
      if |st.buf| + |data| + 6 > st.max then (st, false)
      else (st.(hdr := Some(|st.buf|), buf := st.buf + HEADER_ROOM + data), true)
    else if |st.buf| + |data| > st.max then (st, false)
    else (st.(buf := st.buf + data), true)
  }

  /** Writes the size digits over the four bytes at `h`. */
  function Patch(buf: seq<byte>, h: nat, v: int): seq<byte>
    requires h + 4 <= |buf|
  {
    buf[..h] + Hex4(v) + buf[h + 4..]
  }

  predicate Shape(st: State) {
    |st.buf| <= st.max && (st.hdr.Some? ==> st.hdr.value + 7 <= |st.buf|)
  }

  function FinishChunk(st: State): State
    requires Shape(st)
  {
    if st.hdr.None? then st
    else
      var ended := Send(st, CRLF).0;
      ended.(buf := Patch(ended.buf, st.hdr.value, |ended.buf| - st.hdr.value - 8), hdr := None)
  }

  /** httpdFlushSendBuffer */
  function Flush(st: State): State
    requires Shape(st)
  {
    if !st.open then st
    else
      var ended := FinishChunk(st);
      var last := if ended.chunked && ended.sendingBody && !ended.cgi then LAST_CHUNK else [];
      ended.(buf := [], out := st.out + (ended.buf + last))
  }

  /** httpdEndHeaders */
  function EndHeaders(st: State): (r: State)
    ensures Shape(st) ==> Shape(r)
  {
    Send(st, CRLF).0.(sendingBody := true)
  }

  /** httpdCgiIsDone for a chunked response: the flags are cleared after the flush. */
  function CgiDone(st: State): State
    requires Shape(st)
  {
    var flushed := Flush(st.(cgi := false));
    if st.chunked then flushed.(chunked := false, sendingBody := false) else st.(cgi := false)
  }

  // ----- bodies -----

  datatype Step = DoSend(data: seq<byte>) | DoFlush

  /** Room for the CRLF that ends the open chunk. */
  predicate RoomToEnd(st: State) {
    st.hdr.Some? ==> |st.buf| + 2 <= st.max
  }

  /** Room for that and for the last chunk with strcpy's NUL. */
  predicate RoomForLast(st: State) {
    |st.buf| + (if st.hdr.Some? then 2 else 0) + 6 <= st.max
  }

  function Apply(st: State, step: Step): State
    requires Shape(st)
  {
    match step
    case DoSend(data) => Send(st, data).0
    case DoFlush => Flush(st)
  }

  /** What the step has promised to deliver. */
  function Accepted(st: State, step: Step): seq<byte> {
    if step.DoSend? && Send(st, step.data).1 then step.data else []
  }

  lemma ApplyShape(st: State, step: Step)
    requires Shape(st)
    ensures Shape(Apply(st, step))
  {
  }

  function After(st: State, steps: seq<Step>): (r: State)
    requires Shape(st)
    ensures Shape(r)
    decreases |steps|
  {
    if steps == [] then st else ApplyShape(st, steps[0]); After(Apply(st, steps[0]), steps[1..])
  }

  function AllAccepted(st: State, steps: seq<Step>): seq<byte>
    requires Shape(st)
    decreases |steps|
  {
    if steps == [] then []
    else
      ApplyShape(st, steps[0]);
      Accepted(st, steps[0]) + AllAccepted(Apply(st, steps[0]), steps[1..])
  }

  /** Every flush on the way finds room to end its chunk. */
  predicate AlwaysRoom(st: State, steps: seq<Step>)
    requires Shape(st)
    decreases |steps|
  {
    steps == [] ||
    ((steps[0].DoFlush? ==> RoomToEnd(st)) && (ApplyShape(st, steps[0]); AlwaysRoom(Apply(st, steps[0]), steps[1..])))
  }

  /** In the middle of a body: behind the header bytes `head` stand the whole chunks `blocks`,
      then the open chunk of the bytes `cur`. */
  ghost predicate InBody(st: State, head: seq<byte>, blocks: Blocks, cur: seq<byte>) {
    && Shape(st) && st.open && st.chunked && st.sendingBody && st.cgi && st.max < 65536
    && Sizes(blocks)
    && (st.hdr.Some? <==> cur != [])
    && st.out + st.buf == head + Chunks(blocks) + (if cur == [] then [] else HEADER_ROOM + cur)
    && (cur != [] ==> st.hdr.value + 6 + |cur| == |st.buf|)
  }

  lemma SendInBody(st: State, head: seq<byte>, blocks: Blocks, cur: seq<byte>, data: seq<byte>)
    requires InBody(st, head, blocks, cur)
    ensures InBody(Send(st, data).0, head, blocks, cur + Accepted(st, DoSend(data)))
  {
    var done := head + Chunks(blocks);
    if !Send(st, data).1 {
      assert cur + [] == cur;
    } else if cur == [] {
      assert st.out + st.buf == done;
      Assoc(st.out, st.buf, HEADER_ROOM + data);
      Assoc(st.buf, HEADER_ROOM, data);
      assert [] + data == data;
    } else {
      Assoc(st.out, st.buf, data);
      Assoc(done, HEADER_ROOM + cur, data);
      Assoc(HEADER_ROOM, cur, data);
    }
  }

  /** Ending the open chunk in the buffer makes it a well-formed chunk of its bytes. */
  lemma FinishChunkIsChunk(st: State, cur: seq<byte>)
    requires Shape(st) && st.open && st.hdr.Some? && RoomToEnd(st) && st.max < 65536
    requires cur != [] && st.hdr.value + 6 + |cur| == |st.buf|
    requires st.buf[st.hdr.value..] == HEADER_ROOM + cur
    ensures FinishChunk(st).buf == st.buf[..st.hdr.value] + Chunk(cur)
  {
    var h := st.hdr.value;
    var ended := st.buf + CRLF;
    assert |ended| - h - 8 == |cur|;
    assert ended[h + 4..] == CRLF + cur + CRLF by {
      assert ended[h..] == st.buf[h..] + CRLF;
    }
  }

  lemma FlushInBody(st: State, head: seq<byte>, blocks: Blocks, cur: seq<byte>)
    requires InBody(st, head, blocks, cur) && RoomToEnd(st)
    ensures InBody(Flush(st), head, if cur == [] then blocks else Snoc(blocks, cur), [])
  {
    if cur != [] {
      EndOpenChunk(st, head, blocks, cur);
    }
  }

  /** Cutting two equal concatenations at the same place. */
  lemma CutAt(a: seq<byte>, b: seq<byte>, x: seq<byte>, y: seq<byte>)
    requires a + b == x + y && |a| == |x|
    ensures a == x && b == y
  {
    assert a == (a + b)[..|a|] && x == (x + y)[..|x|];
    assert b == (a + b)[|a|..] && y == (x + y)[|x|..];
  }

  lemma EndOpenChunk(st: State, head: seq<byte>, blocks: Blocks, cur: seq<byte>)
    requires InBody(st, head, blocks, cur) && RoomToEnd(st) && cur != []
    ensures st.out + FinishChunk(st).buf == head + Chunks(Snoc(blocks, cur))
  {
    var h, done := st.hdr.value, head + Chunks(blocks);
    var front, open := st.buf[..h], st.buf[h..];
    assert front + open == st.buf;
    Assoc(st.out, front, open);
    CutAt(st.out + front, open, done, HEADER_ROOM + cur);
    FinishChunkIsChunk(st, cur);
    Assoc(st.out, front, Chunk(cur));
    Assoc(head, Chunks(blocks), Chunk(cur));
  }

  /** The blocks and the open chunk after a run of sends and flushes. */
  lemma {:induction false} RunInBody(st: State, head: seq<byte>, blocks: Blocks, cur: seq<byte>, steps: seq<Step>)
    returns (blocks': Blocks, cur': seq<byte>)
    requires InBody(st, head, blocks, cur) && AlwaysRoom(st, steps)
    ensures InBody(After(st, steps), head, blocks', cur')
    ensures Flatten(blocks') + cur' == Flatten(blocks) + cur + AllAccepted(st, steps)
    decreases |steps|
  {
    blocks', cur' := blocks, cur;
    if steps == [] {
      assert Flatten(blocks) + cur + [] == Flatten(blocks) + cur;
    } else {
      var st', said := Apply(st, steps[0]), Accepted(st, steps[0]);
      if steps[0].DoSend? {
        SendInBody(st, head, blocks, cur, steps[0].data);
        cur' := cur + said;
        Assoc(Flatten(blocks), cur, said);
      } else {
        FlushInBody(st, head, blocks, cur);
        blocks' := if cur == [] then blocks else Snoc(blocks, cur);
        cur' := [];
        assert Flatten(blocks') + [] == Flatten(blocks) + cur == Flatten(blocks) + cur + said;
      }
      blocks', cur' := RunInBody(st', head, blocks', cur', steps[1..]);
      Assoc(Flatten(blocks) + cur, said, AllAccepted(st', steps[1..]));
    }
  }

  /** Being done sends the open chunk and the last chunk; a flush after that sends nothing. */
  lemma {:induction false} DoneIsFinished(st: State)
    requires Shape(st) && st.open && st.chunked && st.sendingBody && RoomForLast(st)
    ensures CgiDone(st).out == st.out + (FinishChunk(st).buf + LAST_CHUNK)
    ensures CgiDone(st).buf == [] && Shape(CgiDone(st)) && Flush(CgiDone(st)).out == CgiDone(st).out
  {
    var out := CgiDone(st).out;
    assert out + ([] + []) == out;
  }

  lemma {:induction false} CloseBody(st: State, head: seq<byte>, blocks: Blocks, cur: seq<byte>)
    returns (blocks': Blocks)
    requires InBody(st, head, blocks, cur) && RoomForLast(st)
    ensures Sizes(blocks') && Flatten(blocks') == Flatten(blocks) + cur
    ensures CgiDone(st).out == head + (Chunks(blocks') + LAST_CHUNK)
    ensures CgiDone(st).buf == [] && Shape(CgiDone(st)) && Flush(CgiDone(st)).out == CgiDone(st).out
  {
    blocks' := EndBlocks(st, head, blocks, cur);
    DoneIsFinished(st);
    Assoc(st.out, FinishChunk(st).buf, LAST_CHUNK);
    Assoc(head, Chunks(blocks'), LAST_CHUNK);
  }

  /** The whole chunks once the open one is ended. */
  lemma {:induction false} EndBlocks(st: State, head: seq<byte>, blocks: Blocks, cur: seq<byte>)
    returns (blocks': Blocks)
    requires InBody(st, head, blocks, cur) && RoomForLast(st)
    ensures Sizes(blocks') && Flatten(blocks') == Flatten(blocks) + cur
    ensures st.out + FinishChunk(st).buf == head + Chunks(blocks')
  {
    blocks' := blocks;
    if cur != [] {
      EndOpenChunk(st, head, blocks, cur);
      blocks' := Snoc(blocks, cur);
    } else {
      assert Flatten(blocks) + cur == Flatten(blocks);
    }
  }

  /** For every run of sends and flushes after the headers, ended by the CGI being done: what is
      flushed is the header bytes and one well-formed chunked body, which decodes to exactly
      the data for which httpdSend returned 1, in order, and ends there; a flush after that adds
      nothing, so the last chunk is sent once. */
  lemma BodyDecodes(st: State, head: seq<byte>, steps: seq<Step>) returns (body: seq<byte>)
    requires InBody(st, head, Empty, [])
    requires AlwaysRoom(st, steps) && RoomForLast(After(st, steps))
    ensures var done := CgiDone(After(st, steps));
            done.out == head + body && done.buf == [] && Shape(done) && Flush(done).out == done.out
    ensures DecodeFrom(body, 0) == Some(AllAccepted(st, steps))
  {
    var blocks, cur := RunInBody(st, head, Empty, [], steps);
    assert [] + [] + AllAccepted(st, steps) == AllAccepted(st, steps);
    blocks := CloseBody(After(st, steps), head, blocks, cur);
    body := Chunks(blocks) + LAST_CHUNK;
    DecodesToData(blocks);
  }

  // ----- headers -----

  /** httpdSend, for one piece after the other. */
  function SendAll(st: State, pieces: seq<seq<byte>>): (r: State)
    ensures Shape(st) ==> Shape(r)
    decreases |pieces|
  {
    if pieces == [] then st else SendAll(Send(st, pieces[0]).0, pieces[1..])
  }

  /** httpdSend returns 1 for each of them. */
  predicate AllSent(st: State, pieces: seq<seq<byte>>)
    decreases |pieces|
  {
    pieces == [] || (Send(st, pieces[0]).1 && AllSent(Send(st, pieces[0]).0, pieces[1..]))
  }

  /** httpdSend returns 1 if and only if the connection is open and there are bytes to send, and the
      buffer has room for them behind the six bytes of a chunk header, where one has to be begun. */
  lemma SentIffRoom(st: State, data: seq<byte>)
    ensures var begins := st.chunked && st.sendingBody && st.hdr.None?;
            Send(st, data).1 <==>
            st.open && data != [] && |st.buf + (if begins then [0, 0, 0, 0, 0, 0] else []) + data| <= st.max
    ensures !Send(st, data).1 ==> Send(st, data).0 == st
  {
  }

  /** Outside of a chunked body, what is sent is put into the buffer as it is. */
  lemma {:induction false} PlainSends(st: State, pieces: seq<seq<byte>>)
    requires AllSent(st, pieces) && !(st.chunked && st.sendingBody)
    ensures SendAll(st, pieces) == st.(buf := st.buf + Concat(pieces))
    decreases |pieces|
  {
    if pieces == [] {
      assert st.buf + [] == st.buf;
    } else {
      PlainSends(Send(st, pieces[0]).0, pieces[1..]);
      Assoc(st.buf, pieces[0], Concat(pieces[1..]));
    }
  }

  /** The headers are ended with an empty line. */
  lemma HeadersEnd(st: State, headers: seq<seq<byte>>)
    requires AllSent(st, headers) && !(st.chunked && st.sendingBody) && st.open
    requires |st.buf| + |Concat(headers)| + 2 <= st.max
    ensures EndHeaders(SendAll(st, headers)) ==
            st.(buf := st.buf + (Concat(headers) + ['\r' as int, '\n' as int]), sendingBody := true)
  {
    PlainSends(st, headers);
    Assoc(st.buf, Concat(headers), CRLF);
  }

  /** A connection on which a chunked response can be begun. */
  predicate BeforeResponse(st: State) {
    && Shape(st) && st.open && st.chunked && !st.sendingBody && st.cgi && st.hdr.None?
    && st.max < 65536 && st.buf == []
  }

  /** Behind them the body begins. */
  lemma BodyStarts(st: State, headers: seq<seq<byte>>)
    requires BeforeResponse(st) && AllSent(st, headers) && |Concat(headers)| + 2 <= st.max
    ensures var s := EndHeaders(SendAll(st, headers));
            InBody(s, st.out + (Concat(headers) + ['\r' as int, '\n' as int]), Empty, [])
  {
    HeadersEnd(st, headers);
    var head := st.out + (Concat(headers) + CRLF);
    assert head + [] == head;
  }

  /** A whole chunked response: for every headers that were all accepted and have room for the empty
      line, and every run of sends and flushes behind them ended by the CGI being done, what is
      flushed is the headers, an empty line and a body that decodes to what was accepted. Then the
      connection is as it was for the next response. */
  lemma ResponseIsWhole(st: State, headers: seq<seq<byte>>, steps: seq<Step>) returns (body: seq<byte>)
    requires BeforeResponse(st) && AllSent(st, headers) && |Concat(headers)| + 2 <= st.max
    requires AlwaysRoom(EndHeaders(SendAll(st, headers)), steps)
    requires RoomForLast(After(EndHeaders(SendAll(st, headers)), steps))
    ensures var s := EndHeaders(SendAll(st, headers));
            var done := CgiDone(After(s, steps));
            && done.out == st.out + (Concat(headers) + ['\r' as int, '\n' as int]) + body
            && DecodeFrom(body, 0) == Some(AllAccepted(s, steps))
            && !done.chunked && !done.cgi && BeforeResponse(done.(chunked := true, cgi := true))
  {
    var s := EndHeaders(SendAll(st, headers));
    BodyStarts(st, headers);
    body := BodyDecodes(s, st.out + (Concat(headers) + CRLF), steps);
    var blocks, cur := RunInBody(s, st.out + (Concat(headers) + CRLF), Empty, [], steps);
  }

  /** Outside of a chunked body, also while the headers of one are sent, a flush sends what is in the
      buffer and nothing else. */
  lemma FlushOutsideBody(st: State)
    requires Shape(st) && st.open && st.hdr.None? && !(st.chunked && st.sendingBody)
    ensures Flush(st) == st.(buf := [], out := st.out + st.buf)
  {
    assert st.buf + [] == st.buf;
  }

  /** A connection that is gone is not written to. */
  lemma ClosedSendsNothing(st: State, data: seq<byte>)
    requires Shape(st) && !st.open
    ensures Send(st, data) == (st, false) && Flush(st) == st
  {
  }

  /** A response without chunking: what is flushed and what is still in the buffer are together the
      bytes accepted, and a flush leaves nothing in the buffer. */
  lemma {:induction false} PlainResponse(st: State, steps: seq<Step>)
    requires Shape(st) && st.open && !st.chunked && st.hdr.None?
    ensures var d := After(st, steps);
            && d.out + d.buf == st.out + st.buf + AllAccepted(st, steps)
            && Flush(d).out == d.out + d.buf && Flush(d).buf == []
            && CgiDone(d).buf == d.buf && Flush(CgiDone(d)).out == d.out + d.buf && !CgiDone(d).cgi
            && !d.chunked && d.hdr.None? && d.open
    decreases |steps|
  {
    var d := After(st, steps);
    assert d.buf + [] == d.buf;
    if steps == [] {
      assert st.out + st.buf + [] == st.out + st.buf;
    } else {
      var next, said := Apply(st, steps[0]), Accepted(st, steps[0]);
      PlainStep(st, steps[0]);
      PlainResponse(next, steps[1..]);
      Assoc(st.out + st.buf, said, AllAccepted(next, steps[1..]));
    }
  }

  lemma PlainStep(st: State, step: Step)
    requires Shape(st) && st.open && !st.chunked && st.hdr.None?
    ensures var d := Apply(st, step);
            && d.out + d.buf == st.out + st.buf + Accepted(st, step)
            && Shape(d) && d.open && !d.chunked && d.hdr.None?
  {
    assert st.buf + [] == st.buf;
    Assoc(st.out, st.buf, Accepted(st, step));
  }

  /** A flush that has no room for the CRLF announces two bytes less than it carries; followed
      by the last chunk it never decodes to the data.  So room is exactly what is needed. */
  lemma FlushNeedsRoom(st: State, h: nat, cur: seq<byte>)
    requires Shape(st) && st.open && st.hdr == Some(h) && st.max < 65536
    requires cur != [] && st.buf[h..] == HEADER_ROOM + cur
    ensures h <= |FinishChunk(st).buf|
    ensures DecodeFrom(FinishChunk(st).buf[h..] + LAST_CHUNK, 0) == Some(cur) <==> RoomToEnd(st)
  {
    var chunk := FinishChunk(st).buf[h..];
    if RoomToEnd(st) {
      FinishChunkIsChunk(st, cur);
      assert chunk == Chunk(cur) == Chunks(Snoc(Empty, cur));
      DecodesToData(Snoc(Empty, cur));
      assert [] + cur == cur;
    } else {
      var v := |cur| - 2;
      assert |st.buf[h..]| == |cur| + 6;
      assert chunk == Hex4(v) + st.buf[h..][4..];
      assert st.buf[h..][4..] == CRLF + cur;
      ShortHeader(chunk + LAST_CHUNK, cur, v);
    }
  }

  const FULL: seq<byte> := seq(8186, i => 65)

  /** In the empty buffer of 8192 bytes one httpdSend of 8186 bytes is accepted and leaves no room;
      flushed, it does not decode to what was sent. */
  lemma {:induction false} ExampleNoRoom(st: State)
    requires st == State(8192, [], None, true, true, true, true, [])
    ensures Send(st, FULL).1 && Shape(Send(st, FULL).0)
    ensures DecodeFrom(FinishChunk(Send(st, FULL).0).buf + LAST_CHUNK, 0) != Some(FULL)
  {
    var full := Send(st, FULL).0;
    assert [] + HEADER_ROOM + FULL == HEADER_ROOM + FULL == full.buf[0..];
    FlushNeedsRoom(full, 0, FULL);
    assert FinishChunk(full).buf[0..] == FinishChunk(full).buf;
  }

  lemma ShortHeader(s: seq<byte>, cur: seq<byte>, v: int)
    requires 0 < |cur| < 65536 && v == |cur| - 2
    requires s == Hex4(v) + (CRLF + cur) + LAST_CHUNK
    ensures DecodeFrom(s, 0) != Some(cur)
  {
    var size := if v < 0 then 65535 else v;
    assert Hex4(v) == Hex4(size);
    assert s[0..4] == Hex4(size) && s[4] == CR;
    SizeOfHeader(s, 0, size);
    if size != 0 && v >= 0 {
      var rest := DecodeFrom(s, 0);
      assert s[6..6 + size] == cur[..size];
      if IsAt(s, 6 + size, CRLF) && DecodeFrom(s, 8 + size).Some? {
        assert s[8 + size..] == LAST_CHUNK;
        DecodeLast(s, 8 + size);
        assert |rest.value| == size;
      }
    }
  }
}
