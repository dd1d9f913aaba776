/** fill_buffer, req_readline and req_process_download of esp_request.c on the real buffer,
    against any transport: each read is cut short, ends the stream or fails as the script says. */
module HttpDownload {
  import opened Options
  import opened Bytes
  import opened HeaderSplit
  import opened ReaderModel
  import opened Transports

  class Reader {
    const data: array<byte>   // REQ_BUFFER_LEN + 1 cells
    const transport: Transport
    var bytesRead: nat
    var bytesWrite: nat
    var atEof: bool

    constructor (bufferLen: nat, transport: Transport)
      requires bufferLen >= 2
      ensures this.transport == transport && data.Length == bufferLen + 1
      ensures fresh(data) && bytesRead == bytesWrite == 0 && !atEof
    {
      this.transport := transport;
      data := new byte[bufferLen + 1];
      bytesRead, bytesWrite, atEof := 0, 0, false;
    }

    ghost function Buffer(): Buf
      reads this, data
    {
      Buf(data[..], bytesRead, bytesWrite)
    }

    /** The memmove of fill_buffer. */
    method MoveDown()
      requires bytesRead <= bytesWrite < data.Length
      modifies `bytesRead, `bytesWrite, data
      ensures data[..] == Compact(old(Buffer())).data
      ensures if old(bytesRead == bytesWrite)
              then bytesRead == bytesWrite == old(bytesRead)
              else Buffer() == Compact(old(Buffer()))
    {
      var inside := bytesWrite - bytesRead;
      if inside != 0 {
        forall i | 0 <= i < inside {
          data[i] := data[bytesRead + i];
        }
        bytesRead, bytesWrite := 0, inside;
      }
    }

    /** fill_buffer before the end of the stream. */
    method Fill() returns (n: int)
      requires bytesRead <= bytesWrite < data.Length && !atEof
      modifies this, data, transport
      ensures n == old(transport.Next(data.Length - 1 - (bytesWrite - bytesRead)))
      ensures transport.script == if old(transport.script) == [] then [] else old(transport.script)[1..]
      ensures transport.input == old(transport.input)[Max0(n)..] && transport.readCount == old(transport.readCount) + 1
      ensures atEof == (n <= 0)
      ensures bytesRead == 0 && bytesWrite == old(bytesWrite - bytesRead) + Max0(n) < data.Length
      ensures n < 0 ==> Buffer() == Compact(old(Buffer()))
      ensures n >= 0 ==>
                data[..bytesWrite] == old(data[bytesRead..bytesWrite]) + old(transport.input)[..n] &&
                data[bytesWrite] == NUL
    {
      MoveDown();
      if bytesWrite == bytesRead {
        bytesWrite, bytesRead := 0, 0;
      }
      n := transport.Read(data, bytesWrite, data.Length - 1 - bytesWrite);
      if n < 0 {
        atEof := true;
        return;
      }
      bytesWrite := bytesWrite + n;
      data[bytesWrite] := NUL;
      if n == 0 {
        atEof := true;
      }
    }

    ghost predicate NulAhead()
      reads this, data
    {
      exists k :: bytesRead <= k < data.Length && data[k] == NUL
    }

    /** strstr from the read position */
    method FindCrlf() returns (cr: Option<nat>)
      requires NulAhead()
      ensures cr == StrStr(data[..], bytesRead)
    {
      ghost var k :| bytesRead <= k < data.Length && data[k] == NUL;
      var i := bytesRead;
      while data[i] != NUL && !(data[i] == CR && data[i + 1] == LF)
        invariant bytesRead <= i <= k
        invariant StrStr(data[..], bytesRead) == StrStr(data[..], i)
        decreases k - i
      {
        i := i + 1;
      }
      cr := if data[i] == NUL then None else Some(i);
    }

    /** req_readline */
    method Line() returns (line: Option<seq<byte>>)
      requires bytesRead + 2 <= bytesWrite ==> NulAhead()
      modifies `bytesRead, data
      ensures line.None? ==> ReadLine(old(Buffer())).None? && Buffer() == old(Buffer())
      ensures line.Some? ==> ReadLine(old(Buffer())) == Some((line.value, Buffer()))
      ensures line.Some? ==> NulAhead() && old(bytesRead) < bytesRead <= data.Length
    {
      if bytesRead + 2 > bytesWrite {
        return None;
      }
      var found := FindCrlf();
      if found.None? {
        return None;
      }
      var cr := found.value;
      ghost var d, k :| d == data[..] && bytesRead <= k < data.Length && data[k] == NUL;
      line := Some(data[bytesRead..cr]);
      data[cr], data[cr + 1] := NUL, NUL;
      assert data[..] == d[cr := NUL][cr + 1 := NUL] && data[k] == NUL;
      bytesRead := cr + 2;
    }

    /** The line loop of req_process_download. */
    method TakeHead() returns (lines: seq<seq<byte>>, done: bool)
      requires bytesRead + 2 <= bytesWrite ==> NulAhead()
      modifies `bytesRead, data
      ensures Taken(lines, done, Buffer()) == TakeLines(old(Buffer()))
    {
      lines, done := [], false;
      ghost var whole := TakeLines(Buffer());
      assert [] + whole.lines == whole.lines;
      while true
        invariant bytesRead + 2 <= bytesWrite ==> NulAhead()
        invariant bytesRead <= data.Length || bytesRead == old(bytesRead)
        invariant Behind(whole, lines, TakeLines(Buffer()))
        decreases data.Length - bytesRead
      {
        TakeOne(whole, lines, Buffer());
        var line := Line();
        if line.None? {
          return;
        }
        if line.value == [] {
          return lines, true;
        }
        lines := lines + [line.value];
      }
    }

    /** While the head is being read, the buffer holds the unfinished line of what was seen. */
    ghost predicate AtHead(seen: seq<byte>)
      reads this, data
    {
      && !Split(seen).done
      && bytesRead <= bytesWrite < data.Length
      && data[bytesRead..bytesWrite] == Split(seen).rest
      && (bytesRead < bytesWrite ==> Drained(Buffer()))
    }

    /** One refill while the head is being read.  The head never ends on a refill that brought
        nothing, so the offset of the body is taken from a buffer that is not moved again. */
    method HeadRound(ghost seen: seq<byte>) returns (n: int, lines: seq<seq<byte>>, done: bool)
      requires AtHead(seen) && !atEof
      modifies this, data, transport
      ensures n == old(transport.Next(data.Length - 1 - (bytesWrite - bytesRead)))
      ensures transport.script == if old(transport.script) == [] then [] else old(transport.script)[1..]
      ensures transport.input == old(transport.input)[Max0(n)..] && transport.readCount == old(transport.readCount) + 1
      ensures atEof == (n <= 0)
      ensures n >= 0 ==> bytesRead <= bytesWrite < data.Length
      ensures n >= 0 ==> Split(seen + old(transport.input)[..n]) ==
                         Head(Split(seen).lines + lines, done, data[bytesRead..bytesWrite])
      ensures n >= 0 && !done ==> AtHead(seen + old(transport.input)[..n])
      ensures done ==> !atEof
      ensures n < 0 ==> (lines != [] <==> old(MakesUpLine(Buffer()))) && |lines| <= 1
    {
      ghost var before, input := Buffer(), transport.input;
      n := Fill();
      if n < 0 {
        if before.rd < before.wr {
          FailedReadLines(before);
          assert data[before.wr] == NUL;
        }
      } else {
        FreshBytes(seen, input[..n], Buffer());
        assert data[bytesWrite] == NUL;
      }
      lines, done := TakeHead();
      assert n >= 0 ==> Buffer().data[bytesRead..bytesWrite] == data[bytesRead..bytesWrite];
    }

    /** The refill of one round of req_process_download, with the line loop while the head lasts. */
    method Refill(ghost seen: seq<byte>, lines0: seq<seq<byte>>, inBody0: bool)
      returns (n: int, lines: seq<seq<byte>>, inBody: bool, headerOff: nat, ghost now: seq<byte>)
      requires !atEof && data.Length >= 3
      requires inBody0 == Split(seen).done && lines0 == Split(seen).lines
      requires if inBody0 then bytesRead == bytesWrite < data.Length else AtHead(seen)
      modifies this, data, transport
      ensures n <= |old(transport.input)| && (n < 0 ==> !NeverFails(old(transport.script)))
      ensures now + transport.input == seen + old(transport.input) && (n <= 0 ==> now == seen)
      ensures n > 0 ==> old(transport.script) != []
      ensures transport.script == if old(transport.script) == [] then [] else old(transport.script)[1..]
      ensures transport.readCount == old(transport.readCount) + 1
      ensures n <= 0 ==> atEof && transport.input == old(transport.input)
      ensures n > 0 ==> !atEof && transport.input == old(transport.input)[n..]
      ensures inBody == Split(now).done
      ensures n >= 0 || inBody ==> lines == Split(now).lines
      ensures inBody0 ==> inBody && lines == lines0
      ensures lines0 <= lines && (n < 0 ==> |lines| <= |lines0| + 1)
      ensures if inBody
              then headerOff <= bytesRead <= bytesWrite < data.Length &&
                   (if inBody0 then Split(seen).rest else []) + data[headerOff..bytesWrite] ==
                   Split(now).rest
              else n >= 0 ==> AtHead(now)
      ensures inBody && atEof ==> headerOff == bytesRead == bytesWrite == 0
      ensures old(Steady(transport.script, transport.input)) &&
              HeadFits(seen + old(transport.input), data.Length - 1) ==>
                n > 0 || old(transport.input) == []
    {
      ghost var input := transport.input;
      inBody, headerOff := inBody0, 0;
      if inBody0 {
        lines := lines0;
        n := Fill();
        SplitFinished(seen, input[..Max0(n)]);
        assert data[0..bytesWrite] == data[..bytesWrite] == input[..Max0(n)];
      } else {
        if HeadFits(seen + input, data.Length - 1) {
          RoomForMore(seen, input, data.Length - 1);
        }
        n, lines, inBody := HeadRound(seen);
        lines := lines0 + lines;
        headerOff := bytesRead;
      }
      now := seen + input[..Max0(n)];
      Resplit(seen, input, Max0(n));
    }

    /** Reads that neither fail nor end the stream before its last byte, and room for each line. */
    ghost predicate OnCourse(seen: seq<byte>)
      reads this, transport
    {
      if atEof then transport.input == []
      else Steady(transport.script, transport.input) && HeadFits(seen + transport.input, Max0(data.Length - 1))
    }

    /** The same refill, and what it does to the reads that are to come. */
    method RefillOnCourse(ghost seen: seq<byte>, lines0: seq<seq<byte>>, inBody0: bool)
      returns (n: int, lines: seq<seq<byte>>, inBody: bool, headerOff: nat, ghost now: seq<byte>)
      requires !atEof && data.Length >= 3
      requires inBody0 == Split(seen).done && lines0 == Split(seen).lines
      requires if inBody0 then bytesRead == bytesWrite < data.Length else AtHead(seen)
      modifies this, data, transport
      ensures now + transport.input == seen + old(transport.input)
      ensures transport.readCount == old(transport.readCount) + 1
      ensures seen <= now && (atEof <==> now == seen)
      ensures atEof || |transport.script| < old(|transport.script|)
      ensures inBody == Split(now).done
      ensures inBody0 ==> inBody && lines == lines0
      ensures lines0 <= lines && (atEof && !inBody ==> Split(now).lines == lines0 && |lines| <= |lines0| + 1)
      ensures inBody || !atEof || NeverFails(old(transport.script)) ==> lines == Split(now).lines
      ensures if inBody
              then headerOff <= bytesRead <= bytesWrite < data.Length &&
                   (if inBody0 then Split(seen).rest else []) + data[headerOff..bytesWrite] ==
                   Split(now).rest
              else !atEof ==> AtHead(now)
      ensures inBody && atEof ==> headerOff == bytesRead == bytesWrite == 0
      ensures old(OnCourse(seen)) ==> OnCourse(now)
      ensures NeverFails(old(transport.script)) ==> NeverFails(transport.script)
    {
      ghost var script0, input0 := transport.script, transport.input;
      n, lines, inBody, headerOff, now := Refill(seen, lines0, inBody0);
      ScriptTail(script0, input0, n);
      Grown(seen, input0, now, transport.input, n);
    }

    /** The body part of one round of req_process_download: the bytes handed to the callback. */
    method TakeBody(headerOff: nat) returns (block: seq<byte>)
      requires headerOff <= bytesRead <= bytesWrite < data.Length
      requires atEof ==> headerOff == bytesRead == bytesWrite == 0
      modifies `bytesRead, `bytesWrite, data
      ensures block == old(data[headerOff..bytesWrite])
      ensures bytesRead == bytesWrite < data.Length
    {
      if atEof {
        MoveDown();
      }
      bytesRead := bytesWrite;
      block := data[headerOff..bytesWrite];
    }

    /** Hands a block to the callback; `stop` when it refuses, or the body is complete or absent. */
    method Hand(blocks0: seq<seq<byte>>, block: seq<byte>, total0: nat, len: int, accepts: nat -> bool)
      returns (blocks: seq<seq<byte>>, total: nat, stop: bool)
      ensures blocks == if len != 0 && block != [] then blocks0 + [block] else blocks0
      ensures stop <==> len == 0 || (block != [] && (!accepts(|blocks0|) || total0 + |block| == len))
      ensures !stop ==> total == total0 + |block|
    {
      blocks, total, stop := blocks0, total0, false;
      if len != 0 && block != [] {
        blocks := blocks + [block];
        if !accepts(|blocks| - 1) {
          return blocks, total, true;
        }
        total := total + |block|;
        if total == len {
          return blocks, total, true;
        }
      }
      stop := len == 0;
    }

    /** The body part of a round: the new bytes of the body are handed on. */
    method PassOn(headerOff: nat, blocks0: seq<seq<byte>>, total0: nat, len: int, accepts: nat -> bool)
      returns (blocks: seq<seq<byte>>, total: nat, stop: bool)
      requires headerOff <= bytesRead <= bytesWrite < data.Length
      requires atEof ==> headerOff == bytesRead == bytesWrite == 0
      modifies `bytesRead, `bytesWrite, data
      ensures var block := old(data[headerOff..bytesWrite]);
              && blocks == (if len != 0 && block != [] then blocks0 + [block] else blocks0)
              && (stop <==> len == 0 || (block != [] && (!accepts(|blocks0|) || total0 + |block| == len)))
              && (!stop ==> total == total0 + |block|)
      ensures bytesRead == bytesWrite < data.Length
    {
      var block := TakeBody(headerOff);
      blocks, total, stop := Hand(blocks0, block, total0, len, accepts);
    }

    /** One round of req_process_download. */
    method Round(lines0: seq<seq<byte>>, inBody0: bool, blocks0: seq<seq<byte>>, total0: nat,
                 lenOf: seq<seq<byte>> -> int, accepts: nat -> bool, ghost before: seq<seq<byte>>)
      returns (lines: seq<seq<byte>>, inBody: bool, blocks: seq<seq<byte>>, total: nat, stop: bool,
               ghost history: seq<seq<byte>>)
      requires !atEof && data.Length >= 3 && IsHistory(before) && NeverEnds(before, lenOf, accepts)
      requires inBody0 == Split(Last(before)).done && lines0 == Split(Last(before)).lines
      requires if inBody0 then bytesRead == bytesWrite < data.Length else AtHead(Last(before))
      requires blocks0 == Parts(before) && total0 == |BodyOf(Last(before))|
      modifies this, data, transport
      ensures IsHistory(history) && |history| == |before| + 1
      ensures Last(history) + transport.input == Last(before) + old(transport.input)
      ensures transport.readCount == old(transport.readCount) + 1
      ensures atEof || |transport.script| < old(|transport.script|)
      ensures inBody == Split(Last(history)).done && (inBody0 ==> inBody && lines == lines0)
      ensures Split(Last(history)).lines <= lines && |lines| <= |Split(Last(history)).lines| + 1
      ensures inBody || !atEof || NeverFails(old(transport.script)) ==> lines == Split(Last(history)).lines
      ensures if inBody then bytesRead == bytesWrite < data.Length else !atEof ==> AtHead(Last(history))
      ensures blocks == if inBody && lenOf(lines) == 0 then blocks0 else Parts(history)
      ensures !stop ==> total == |BodyOf(Last(history))| && (inBody ==> lenOf(lines) != 0)
      ensures if stop || atEof then EndsFirst(history, lenOf, accepts) else NeverEnds(history, lenOf, accepts)
      ensures old(OnCourse(Last(before))) ==> OnCourse(Last(history))
      ensures NeverFails(old(transport.script)) ==> NeverFails(transport.script)
      ensures stop ==> inBody
      ensures stop ==> lenOf(lines) == 0 || |BodyOf(Last(history))| == lenOf(lines) || exists k :: !accepts(k)
    {
      var n: int;
      var headerOff: nat;
      ghost var now: seq<byte>;
      n, lines, inBody, headerOff, now := RefillOnCourse(Last(before), lines0, inBody0);
      history, blocks, total, stop := before + [now], blocks0, total0, false;
      OneMoreRead(before, now);
      EndsOrNot(before, now, lenOf, accepts);
      if inBody {
        SamePart(BodyOf(Last(before)), NewPart(history), data[headerOff..bytesWrite]);
        blocks, total, stop := PassOn(headerOff, blocks, total, lenOf(lines), accepts);
      }
    }

    /** req_process_download.  `lenOf` is the number in the Content-Length line, 0 without one;
        `accepts` says which calls of the download callback return non-negative; `blocks` are what
        these calls are given.  `history` is what the transport had delivered before the first read
        and after each, however it was cut: it ends with the first read after which the download is
        to end. */
    method Download(lenOf: seq<seq<byte>> -> int, accepts: nat -> bool)
      returns (lines: seq<seq<byte>>, inBody: bool, blocks: seq<seq<byte>>, ghost history: seq<seq<byte>>)
      requires data.Length >= 3
      modifies this, data, transport
      ensures EndsFirst(history, lenOf, accepts) && IsHistory(history)
      ensures transport.readCount == old(transport.readCount) + |history| - 1
      ensures old(transport.input) == Last(history) + transport.input
      ensures inBody == Split(Last(history)).done
      ensures Split(Last(history)).lines <= lines && |lines| <= |Split(Last(history)).lines| + 1
      ensures inBody || NeverFails(old(transport.script)) ==> lines == Split(Last(history)).lines
      ensures blocks == if inBody && lenOf(lines) == 0 then [] else Parts(history)
      ensures old(!MayStopEarly(accepts)) ==>
                transport.input == [] ||
                (inBody && (lenOf(lines) == 0 || |BodyOf(Last(history))| == lenOf(lines)))
    {
      bytesRead, bytesWrite, atEof := 0, 0, false;
      lines, inBody, blocks, history := [], false, [], [[]];
      var total, stop := 0, false;
      ghost var stream, script, clean := transport.input, transport.script, !MayStopEarly(accepts);
      ghost var count0 := transport.readCount;
      while !stop && !atEof
        invariant IsHistory(history) && transport.readCount == count0 + |history| - 1
        invariant stream == Last(history) + transport.input
        invariant inBody == Split(Last(history)).done
        invariant if inBody then bytesRead == bytesWrite < data.Length else !atEof ==> AtHead(Last(history))
        invariant Split(Last(history)).lines <= lines && |lines| <= |Split(Last(history)).lines| + 1
        invariant inBody || !atEof || NeverFails(script) ==> lines == Split(Last(history)).lines
        invariant blocks == if inBody && lenOf(lines) == 0 then [] else Parts(history)
        invariant !stop ==> total == |BodyOf(Last(history))| && (inBody ==> lenOf(lines) != 0)
        invariant if stop || atEof then EndsFirst(history, lenOf, accepts) else NeverEnds(history, lenOf, accepts)
        invariant NeverFails(script) ==> NeverFails(transport.script)
        invariant clean ==> OnCourse(Last(history))
        invariant stop && clean ==> inBody && (lenOf(lines) == 0 || |BodyOf(Last(history))| == lenOf(lines))
        decreases !atEof, |transport.script|
      {
        NoPartsInHead(history);
        lines, inBody, blocks, total, stop, history :=
          Round(lines, inBody, blocks, total, lenOf, accepts, history);
      }
    }

    /** The law of the reader: a response whose head has no NUL and whose Content-Length is right
        comes through unchanged, however the transport cuts it into reads. */
    method DownloadWhole(lenOf: seq<seq<byte>> -> int, accepts: nat -> bool)
      returns (lines: seq<seq<byte>>, blocks: seq<seq<byte>>)
      requires data.Length >= 3 && HeadHasNoNul(transport.input) && !MayStopEarly(accepts)
      requires Plain(transport.input).done
      requires lenOf(Plain(transport.input).lines) == |Plain(transport.input).rest| > 0
      modifies this, data, transport
      ensures lines == Plain(old(transport.input)).lines && Concat(blocks) == Plain(old(transport.input)).rest
    {
      ghost var stream, history := transport.input, [];
      NoNulSplit(stream);
      var inBody;
      lines, inBody, blocks, history := Download(lenOf, accepts);
      ghost var seen := Last(history);
      PartsAreBody(history);
      assert transport.input == [] ==> seen + transport.input == seen;
      if Split(seen).done {
        SeenIsPrefix(seen, transport.input);
      }
    }

    /** With a NUL in the head, every byte of the response is read, the lines are those before the
        NUL, and no body is ever reached. */
    method DownloadWithNul(lenOf: seq<seq<byte>> -> int, accepts: nat -> bool)
      returns (lines: seq<seq<byte>>, inBody: bool, blocks: seq<seq<byte>>, ghost z: nat)
      requires data.Length >= 3 && !HeadHasNoNul(transport.input) && !MayStopEarly(accepts)
      modifies this, data, transport
      ensures z < |old(transport.input)| && old(transport.input)[z] == NUL && NUL !in old(transport.input)[..z]
      ensures transport.input == [] && !inBody && blocks == [] && lines == Plain(old(transport.input)[..z]).lines
    {
      ghost var stream, history := transport.input, [];
      z := NulStops(stream);
      lines, inBody, blocks, history := Download(lenOf, accepts);
      ghost var seen := Last(history);
      NoPartsInHead(history);
      assert transport.input == [] ==> seen + transport.input == seen;
      if Split(seen).done {
        SeenIsPrefix(seen, transport.input);
      }
    }

    ghost predicate MayStopEarly(accepts: nat -> bool)
      reads this, transport
    {
      || (exists k :: !accepts(k))
      || !Steady(transport.script, transport.input)
      || !HeadFits(transport.input, Max0(data.Length - 1))
    }
  }

  // ----- when a download ends -----

  function Last<T>(s: seq<T>): T
    requires s != []
  {
    s[|s| - 1]
  }

  function Front<T>(s: seq<T>): seq<T>
    requires s != []
  {
    s[..|s| - 1]
  }

  /** What has been received before the first read and after each. */
  ghost predicate IsHistory(history: seq<seq<byte>>)
    decreases |history|
  {
    && history != []
    && (if |history| == 1 then history[0] == [] else IsHistory(Front(history)) && Last(Front(history)) <= Last(history))
  }

  /** The bytes of the body among those received. */
  function BodyOf(seen: seq<byte>): seq<byte> {
    if Split(seen).done then Split(seen).rest else []
  }

  /** The bytes of the body that the last read has brought. */
  function NewPart(history: seq<seq<byte>>): seq<byte>
    requires |history| > 1
  {
    var before, now := BodyOf(Last(Front(history))), BodyOf(Last(history));
    if |before| <= |now| then now[|before|..] else []
  }

  /** The parts of the body that the reads have brought, without empty ones. */
  function Parts(history: seq<seq<byte>>): seq<seq<byte>>
    decreases |history|
  {
    if |history| <= 1 then []
    else Parts(Front(history)) + (if NewPart(history) != [] then [NewPart(history)] else [])
  }

  /** The download ends after the last of these reads: it brought nothing; or there is no body to
      wait for; or its part of the body is refused or completes the body. */
  ghost predicate Ends(history: seq<seq<byte>>, lenOf: seq<seq<byte>> -> int, accepts: nat -> bool)
    requires |history| > 1
  {
    var now, len := Last(history), lenOf(Split(Last(history)).lines);
    || now == Last(Front(history))
    || (Split(now).done &&
        (len == 0 || (NewPart(history) != [] && (!accepts(|Parts(history)| - 1) || |BodyOf(now)| == len))))
  }

  /** It does not end after any of these reads. */
  ghost predicate NeverEnds(history: seq<seq<byte>>, lenOf: seq<seq<byte>> -> int, accepts: nat -> bool)
    decreases |history|
  {
    |history| > 1 ==> !Ends(history, lenOf, accepts) && NeverEnds(Front(history), lenOf, accepts)
  }

  /** It ends after the last of them and not before. */
  ghost predicate EndsFirst(history: seq<seq<byte>>, lenOf: seq<seq<byte>> -> int, accepts: nat -> bool) {
    |history| > 1 && Ends(history, lenOf, accepts) && NeverEnds(Front(history), lenOf, accepts)
  }

  lemma {:induction false} BodyGrows(a: seq<byte>, b: seq<byte>)
    requires a <= b
    ensures BodyOf(a) <= BodyOf(b)
    ensures Split(a).done ==> Split(b).done && Split(b).lines == Split(a).lines
  {
    assert b == a + b[|a|..];
    if Split(a).done {
      SplitFinished(a, b[|a|..]);
    }
  }

  lemma {:induction false} OneMoreRead(history: seq<seq<byte>>, now: seq<byte>)
    requires IsHistory(history) && Last(history) <= now
    ensures var h := history + [now];
            && IsHistory(h) && Last(h) == now && Front(h) == history
            && BodyOf(now) == BodyOf(Last(history)) + NewPart(h)
            && Parts(h) == Parts(history) + (if NewPart(h) != [] then [NewPart(h)] else [])
  {
    BodyGrows(Last(history), now);
    assert Front(history + [now]) == history;
  }

  lemma SamePart(a: seq<byte>, b: seq<byte>, c: seq<byte>)
    ensures a + b == a + c ==> b == c
  {
    if a + b == a + c {
      assert b == (a + b)[|a|..] && c == (a + c)[|a|..];
    }
  }

  /** Whether one more read ends the download. */
  lemma {:induction false} EndsOrNot(history: seq<seq<byte>>, now: seq<byte>,
                                     lenOf: seq<seq<byte>> -> int, accepts: nat -> bool)
    requires IsHistory(history) && Last(history) <= now && NeverEnds(history, lenOf, accepts)
    ensures var h, len := history + [now], lenOf(Split(now).lines);
            && Front(h) == history
            && (Ends(h, lenOf, accepts) <==>
                  now == Last(history) ||
                  (Split(now).done &&
                   (len == 0 || (NewPart(h) != [] && (!accepts(|Parts(history)|) || |BodyOf(now)| == len)))))
            && (if Ends(h, lenOf, accepts) then EndsFirst(h, lenOf, accepts) else NeverEnds(h, lenOf, accepts))
  {
    var h := history + [now];
    OneMoreRead(history, now);
    assert NewPart(h) != [] ==> |Parts(h)| - 1 == |Parts(history)|;
    assert Ends(h, lenOf, accepts) ==> EndsFirst(h, lenOf, accepts);
  }

  /** While the head lasts there are none. */
  lemma {:induction false} NoPartsInHead(history: seq<seq<byte>>)
    requires IsHistory(history)
    ensures !Split(Last(history)).done ==> Parts(history) == []
    decreases |history|
  {
    if |history| > 1 {
      BodyGrows(Last(Front(history)), Last(history));
      NoPartsInHead(Front(history));
    }
  }

  /** The parts handed on are together the body received. */
  lemma {:induction false} PartsAreBody(history: seq<seq<byte>>)
    requires IsHistory(history)
    ensures Concat(Parts(history)) == BodyOf(Last(history))
    decreases |history|
  {
    if |history| > 1 {
      PartsAreBody(Front(history));
      PartAdded(Front(history), Last(history));
      FrontAndLast(history);
    } else {
      assert Last(history) == [];
      NoBodyYet();
    }
  }

  lemma FrontAndLast<T>(s: seq<T>)
    requires s != []
    ensures Front(s) + [Last(s)] == s
  {
  }

  lemma NoBodyYet()
    ensures BodyOf([]) == []
  {
  }

  lemma {:induction false} PartAdded(history: seq<seq<byte>>, now: seq<byte>)
    requires IsHistory(history) && Last(history) <= now
    requires Concat(Parts(history)) == BodyOf(Last(history))
    ensures Concat(Parts(history + [now])) == BodyOf(now)
  {
    OneMoreRead(history, now);
    var parts, part := Parts(history), NewPart(history + [now]);
    ConcatSnoc(parts, part);
    if part == [] {
      assert Concat(parts) + [] == Concat(parts) && parts + [] == parts;
    }
  }

  /** While the download goes on, no block has been refused and none has completed the body. */
  lemma {:induction false} GoesOn(history: seq<seq<byte>>, lenOf: seq<seq<byte>> -> int, accepts: nat -> bool, k: nat)
    requires IsHistory(history) && NeverEnds(history, lenOf, accepts) && Split(Last(history)).done
    requires k < |Parts(history)|
    ensures accepts(k) && |Concat(Parts(history)[..k + 1])| != lenOf(Split(Last(history)).lines)
    decreases |history|
  {
    var before := Front(history);
    BodyGrows(Last(before), Last(history));
    NoPartsInHead(before);
    if k < |Parts(before)| {
      GoesOn(before, lenOf, accepts, k);
      assert Parts(history)[..k + 1] == Parts(before)[..k + 1];
    } else {
      NewPartGoesOn(history, lenOf, accepts);
      assert k + 1 == |Parts(history)| && Parts(history)[..k + 1] == Parts(history);
    }
  }

  lemma {:induction false} NewPartGoesOn(history: seq<seq<byte>>, lenOf: seq<seq<byte>> -> int, accepts: nat -> bool)
    requires IsHistory(history) && Split(Last(history)).done && |history| > 1
    requires !Ends(history, lenOf, accepts) && NewPart(history) != []
    ensures accepts(|Parts(history)| - 1) && |Concat(Parts(history))| != lenOf(Split(Last(history)).lines)
  {
    PartsAreBody(history);
  }

  /** Of the blocks handed on only the last can have been refused or have completed the body. */
  lemma {:induction false} OnlyTheLastEnds(history: seq<seq<byte>>, lenOf: seq<seq<byte>> -> int,
                                           accepts: nat -> bool, k: nat)
    requires IsHistory(history) && EndsFirst(history, lenOf, accepts) && k + 1 < |Parts(history)|
    ensures accepts(k) && |Concat(Parts(history)[..k + 1])| != lenOf(Split(Last(history)).lines)
  {
    var before := Front(history);
    BodyGrows(Last(before), Last(history));
    NoPartsInHead(before);
    GoesOn(before, lenOf, accepts, k);
    assert Parts(history)[..k + 1] == Parts(before)[..k + 1];
  }

  lemma {:induction false} ConcatSnoc(parts: seq<seq<byte>>, part: seq<byte>)
    ensures Concat(parts + [part]) == Concat(parts) + part
  {
    if parts == [] {
      assert [] + [part] == [part] && [part][1..] == [] && part + [] == part && [] + part == part;
    } else {
      assert (parts + [part])[0] == parts[0] && (parts + [part])[1..] == parts[1..] + [part];
      ConcatSnoc(parts[1..], part);
      Assoc(parts[0], Concat(parts[1..]), part);
    }
  }

  /** What was seen when the download stopped shows the true head, and a prefix of the body. */
  lemma SeenIsPrefix(seen: seq<byte>, more: seq<byte>)
    requires Split(seen).done
    ensures Split(seen + more).done && Split(seen).lines == Split(seen + more).lines
    ensures Split(seen).rest <= Split(seen + more).rest
  {
    SplitFinished(seen, more);
  }

  lemma RoomForMore(seen: seq<byte>, input: seq<byte>, size: nat)
    requires !Split(seen).done && size >= 2 && HeadFits(seen + input, size)
    ensures |Split(seen).rest| < size
  {
    RestUnfinished(seen);
    FitsContinues(seen, input, size);
    PendingFits(Split(seen).rest, input, size);
  }

  ghost predicate NeverFails(script: seq<int>) {
    forall i :: 0 <= i < |script| ==> script[i] >= 0
  }

  lemma Resplit(a: seq<byte>, b: seq<byte>, n: nat)
    requires n <= |b|
    ensures (a + b[..n]) + b[n..] == a + b
    ensures n == 0 ==> a + b[..n] == a
  {
  }

  lemma Grown(seen: seq<byte>, input: seq<byte>, now: seq<byte>, left: seq<byte>, n: int)
    requires now + left == seen + input && n <= |input|
    requires if n <= 0 then now == seen else left == input[n..]
    ensures seen <= now && (n <= 0 <==> now == seen)
  {
    assert n > 0 ==> |now| == |seen| + n;
    assert forall k :: 0 <= k < |seen| ==> now[k] == (now + left)[k] == (seen + input)[k] == seen[k];
  }

  lemma ScriptTail(script: seq<int>, input: seq<byte>, n: int)
    requires n <= |input|
    ensures script != [] && NeverFails(script) ==> NeverFails(script[1..])
    ensures 0 < n && Steady(script, input) ==> Steady(script[1..], input[n..])
  {
  }

  /** Reads that neither fail nor end the stream before the last byte. */
  ghost predicate Steady(script: seq<int>, input: seq<byte>) {
    |script| > |input| && forall i :: 0 <= i < |script| ==> script[i] > 0
  }
}
