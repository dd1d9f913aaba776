/** httpdSend, httpdFlushSendBuffer and httpdCgiIsDone of httpd.c on the real send buffer, with
    the chunk header patched in place. */
module HttpdSend {
  import opened Options
  import opened Bytes
  import opened ChunkedCoding
  import opened SendModel

  class Connection {
    const sendBuff: array<byte>   // HTTPD_MAX_SENDBUFF_LEN cells
    var sendBuffLen: nat
    var chunkHdr: Option<nat>     // the pointer into sendBuff, NULL as None
    var chunked: bool             // HFL_CHUNKED
    var sendingBody: bool         // HFL_SENDINGBODY
    var cgi: bool                 // cgi != NULL
    var open: bool                // conn != NULL
    var out: seq<byte>            // what was handed to the platform or queued

    ghost predicate Valid()
      reads this, sendBuff
    {
      sendBuffLen <= sendBuff.Length &&
      (chunkHdr.Some? ==> chunkHdr.value + 7 <= sendBuffLen)
    }

    ghost function Model(): (st: State)
      requires Valid()
      reads this, sendBuff
      ensures Shape(st)
    {
      State(sendBuff.Length, sendBuff[..sendBuffLen], chunkHdr, chunked, sendingBody, cgi, open, out)
    }

    constructor (maxLen: nat, isChunked: bool)
      ensures Valid() && Model() == State(maxLen, [], None, isChunked, false, true, true, [])
    {
      sendBuff := new byte[maxLen];
      sendBuffLen, chunkHdr, out := 0, None, [];
      chunked, sendingBody, cgi, open := isChunked, false, true, true;
    }

    /** memcpy or strcpy to the end of the buffer; the caller has checked the room. */
    method Append(data: seq<byte>)
      requires sendBuffLen + |data| <= sendBuff.Length
      modifies `sendBuffLen, sendBuff
      ensures sendBuffLen == old(sendBuffLen) + |data|
      ensures sendBuff[..sendBuffLen] == old(sendBuff[..sendBuffLen]) + data
    {
      forall i | 0 <= i < |data| {
        sendBuff[sendBuffLen + i] := data[i];
      }
      sendBuffLen := sendBuffLen + |data|;
    }

    /** httpdSend; `data` is the buffer or C string given, with its length. */
    method Send(data: seq<byte>) returns (ok: bool)
      requires Valid()
      modifies `sendBuffLen, `chunkHdr, sendBuff
      ensures Valid() && (Model(), ok) == SendModel.Send(old(Model()), data)
    {
      if !open {
        return false;
      }
      if data == [] {
        return false;
      }
      if chunked && sendingBody && chunkHdr.None? {
        if sendBuffLen + |data| + 6 > sendBuff.Length {
          return false;
        }
        chunkHdr := Some(sendBuffLen);
        Append(HEADER_ROOM);
      }
      if sendBuffLen + |data| > sendBuff.Length {
        return false;
      }
      Append(data);
      ok := true;
    }

    /** Ends the open chunk: the result of the inner httpdSend is not looked at. */
    method EndChunk()
      requires Valid() && open
      modifies `sendBuffLen, `chunkHdr, sendBuff
      ensures Valid() && Model() == FinishChunk(old(Model()))
    {
      if chunkHdr.Some? {
        var h := chunkHdr.value;
        var _ := Send(CRLF);
        ghost var buf := sendBuff[..sendBuffLen];
        var len := sendBuffLen - h - 8;
        sendBuff[h], sendBuff[h + 1] := HexNibble(len / 4096), HexNibble(len / 256);
        sendBuff[h + 2], sendBuff[h + 3] := HexNibble(len / 16), HexNibble(len);
        assert sendBuff[..sendBuffLen] == Patch(buf, h, len);
        chunkHdr := None;
      }
    }

    /** httpdFlushSendBuffer.  A response that is done needs room for "0\r\n\r\n" and its NUL,
        which strcpy writes unchecked. */
    method Flush()
      requires Valid()
      requires open && chunked && sendingBody && !cgi ==> RoomForLast(Model())
      modifies `sendBuffLen, `chunkHdr, `out, sendBuff
      ensures Valid() && Model() == SendModel.Flush(old(Model()))
    {
      if !open {
        return;
      }
      EndChunk();
      ghost var ended := Model();
      if chunked && sendingBody && !cgi {
        Append(LAST_CHUNK);
      } else {
        assert ended.buf + [] == ended.buf;
      }
      if sendBuffLen != 0 {
        out := out + sendBuff[..sendBuffLen];
        sendBuffLen := 0;
      } else {
        assert out + [] == out;
      }
    }

    /** httpdEndHeaders */
    method EndHeaders()
      requires Valid()
      modifies `sendBuffLen, `chunkHdr, `sendingBody, sendBuff
      ensures Valid() && Model() == SendModel.EndHeaders(old(Model()))
    {
      var _ := Send(CRLF);
      sendingBody := true;
    }

    /** httpdCgiIsDone, the part about sending */
    method CgiIsDone()
      requires Valid() && (open && chunked && sendingBody ==> RoomForLast(Model()))
      modifies `sendBuffLen, `chunkHdr, `out, `cgi, `chunked, `sendingBody, sendBuff
      ensures Valid() && Model() == CgiDone(old(Model()))
    {
      cgi := false;
      if chunked {
        Flush();
        chunked, sendingBody := false, false;
      }
    }
  }
}
