/** httpdRecvCb, httpdContinue and httpdDisconCb of httpd.c on the real head and POST buffers. */
module HttpdReceive {
  import opened Options
  import opened Bytes
  import opened ReceiveModel

  class Connection {
    const app: App
    const head: array<byte>   // HTTPD_MAX_HEAD_LEN cells
    var headPos: nat
    var postLen: int
    var buff: array<byte>     // post->buff; empty when it is NULL
    var buffLen: nat
    var buffSize: nat
    var received: nat
    var cgi: bool             // cgi != NULL
    var chunked: bool         // HFL_CHUNKED
    var closing: bool         // HFL_DISCONAFTERSENT
    var asked: bool           // httpdPlatDisconnect has been called
    var gone: bool            // conn->conn == NULL, and no callback finds the connection
    var log: seq<Call>        // the calls of the CGI function

    ghost predicate Bounded()
      reads this, head, buff
    {
      head != buff && app.maxPost > 0 && headPos < head.Length && buffLen <= buff.Length
    }

    ghost predicate Valid()
      reads this, head, buff
    {
      Bounded() && (postLen > 0 ==> buffLen < buffSize < buff.Length) && (postLen >= 0 ==> head[headPos] == NUL)
    }

    ghost function Model(): Conn
      requires Bounded()
      reads this, head, buff
    {
      Conn(head[..headPos], postLen, buff[..buffLen], buffSize, received,
           cgi, chunked, closing, asked, gone, log)
    }

    constructor (app: App, maxHead: nat)
      requires app.maxPost > 0 && maxHead > 0
      ensures Valid() && Model() == Fresh && head.Length == maxHead && this.app == app
    {
      this.app := app;
      head, buff := new byte[maxHead], new byte[0];
      headPos, postLen, buffLen, buffSize, received := 0, -1, 0, 0, 0;
      cgi, chunked, closing, asked, gone, log := false, false, false, false, false, [];
    }

    /** strstr(head, "\r\n\r\n") on the bytes received so far, behind which stands a NUL. */
    method FindBlankLine() returns (found: bool)
      requires Valid()
      ensures found == HasBlankLine(head[..headPos], 0)
    {
      ghost var s := head[..headPos];
      var i := 0;
      while i < headPos && head[i] != NUL
        invariant i <= headPos && HasBlankLine(s, 0) == HasBlankLine(s, i)
      {
        if i + 4 <= headPos && head[i] == CR && head[i + 1] == LF && head[i + 2] == CR && head[i + 3] == LF {
          return true;
        }
        i := i + 1;
      }
      found := false;
    }

    /** httpdCgiIsDone */
    method CleanUp()
      requires Bounded()
      modifies this
      ensures Bounded() && Model() == CgiIsDone(old(Model()))
      ensures buff == old(buff) || (fresh(buff) && postLen == -1)
    {
      cgi := false;
      if chunked {
        headPos, postLen, chunked, closing := 0, -1, false, false;
        buff, buffLen, received := new byte[0], 0, 0;
      } else {
        closing := true;
      }
    }

    /** Calls the CGI with what is in the POST buffer, behind which stands a NUL, and cleans up when it is done. */
    method Serve()
      requires Bounded() && head[headPos] == NUL
      requires postLen > 0 ==> buffLen < buff.Length && buff[buffLen] == NUL
      modifies this
      ensures Bounded() && Model() == CallCgi(app, old(Model()))
      ensures buff == old(buff) || (fresh(buff) && postLen == -1)
    {
      cgi, log := true, log + [Call(head[..headPos], buff[..buffLen])];
      if app.done(log) {
        CleanUp();
      }
    }

    /** httpdContinue, with no backlog to send first. */
    method Continue()
      requires Valid() && !gone
      modifies this
      ensures Valid() && Model() == ReceiveModel.Continue(app, old(Model())) && (buff == old(buff) || fresh(buff))
    {
      if closing {
        asked := true;
        return;
      }
      if !cgi {
        return;
      }
      log := log + [Again(head[..headPos], buff[..buffLen])];
      if app.done(log) {
        CleanUp();
      }
    }

    /** httpdDisconCb */
    method Disconnect()
      requires Valid() && !gone
      modifies this
      ensures Valid() && Model() == ReceiveModel.Disconnect(old(Model())) && buff == old(buff)
    {
      gone := true;
      if cgi {
        log := log + [Farewell(head[..headPos], buff[..buffLen])];
      }
    }

    /** The parsing of a complete head; no body to wait for means the answer is due. */
    method ParseHead()
      requires Valid() && head[headPos] == NUL
      modifies this
      ensures Valid() && Model() == EndHead(app, old(Model())) && (buff == old(buff) || fresh(buff))
    {
      var seen := head[..headPos];
      var length := app.length(seen);
      postLen, buffLen, chunked := 0, 0, app.chunked(seen);
      if length.Some? && length.value != 0 {
        postLen, buffSize := length.value, Min(length.value, app.maxPost);
        buff := new byte[buffSize + 1];
      } else {
        assert buff[..0] == [];
        Serve();
      }
    }

    /** Puts a byte behind the head. */
    method Put(b: byte)
      requires Valid() && postLen < 0 && headPos + 1 < head.Length
      modifies `headPos, head
      ensures Valid() && headPos == old(headPos) + 1
      ensures head[..headPos] == old(head[..headPos]) + [b] && buff[..] == old(buff[..])
    {
      head[headPos] := b;
      headPos := headPos + 1;
    }

    /** Puts a byte behind the head, with a CR in front of a lone LF and a NUL behind it. */
    method StoreHeadByte(b: byte)
      requires Valid() && postLen < 0 && |Collected(Model().head, b)| < head.Length
      modifies `headPos, head
      ensures Valid() && head[headPos] == NUL && Model() == old(Model()).(head := Collected(old(Model()).head, b))
    {
      if b == LF && headPos != 0 && head[headPos - 1] != CR {
        Put(CR);
      }
      Put(b);
      ghost var held := head[..headPos];
      head[headPos] := NUL;
      assert head[..headPos] == held;
    }

    method TakeHeadByte(b: byte)
      requires Valid() && postLen < 0 && |Collected(Model().head, b)| < head.Length
      modifies this, head
      ensures Valid() && Model() == HeadByte(app, old(Model()), b) && (buff == old(buff) || fresh(buff))
    {
      StoreHeadByte(b);
      var ended := false;
      if b == LF {
        ended := FindBlankLine();
      }
      if ended {
        ParseHead();
      }
    }

    method TakeBodyByte(b: byte)
      requires Valid() && postLen > 0
      modifies this, buff
      ensures Valid() && Model() == BodyByte(app, old(Model()), b) && (buff == old(buff) || fresh(buff))
    {
      buff[buffLen] := b;
      buffLen, received := buffLen + 1, received + 1;
      assert buff[..buffLen] == old(buff[..buffLen]) + [b];
      if buffLen >= buffSize || received == postLen {
        ghost var before := Model();
        buff[buffLen] := NUL;
        assert Model() == before;
        Serve();
        buffLen := 0;
        assert buff[..0] == [];
      }
    }

    /** httpdRecvCb */
    method Receive(data: seq<byte>)
      requires Valid() && !gone && Fits(app, Model(), data, head.Length)
      modifies this, head, buff
      ensures Valid() && Model() == After(app, old(Model()), data) && (buff == old(buff) || fresh(buff))
    {
      var x := 0;
      assert data[0..] == data;
      while x < |data|
        invariant x <= |data| && Valid() && (buff == old(buff) || fresh(buff))
        invariant Fits(app, Model(), data[x..], head.Length)
        invariant After(app, old(Model()), data) == After(app, Model(), data[x..])
      {
        assert data[x..][1..] == data[x + 1..];
        if postLen < 0 {
          TakeHeadByte(data[x]);
        } else if postLen != 0 {
          TakeBodyByte(data[x]);
        }
        x := x + 1;
      }
    }
  }

  /** The head buffer has room for each normalised head and a NUL. */
  predicate Fits(app: App, c: Conn, data: seq<byte>, max: nat)
    decreases |data|
  {
    data == [] ||
    ((c.postLen < 0 ==> |Collected(c.head, data[0])| < max) && Fits(app, Step(app, c, data[0]), data[1..], max))
  }
}
