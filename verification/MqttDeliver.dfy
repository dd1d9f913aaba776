/** deliver_publish and the PUBLISH branch of mqtt_process_receive of mqtt_client.c: a message
    that is longer than the input buffer is handed over in several data events. */
module MqttDeliver {
  import opened Options
  import opened Bytes
  import opened Transports
  import opened MqttMessage

  /** MQTT_EVENT_DATA */
  datatype Event = Event(data: seq<byte>, total: nat, offset: nat)

  /** The data of the reads that follow while `left` bytes of the message are missing. */
  function Fragments(script: seq<int>, input: seq<byte>, size: nat, left: nat): seq<seq<byte>>
    decreases left
  {
    var n := NextRead(script, input, Min(left, size));
    if left == 0 || n <= 0 then []
    else [input[..n]] + Fragments(script[1..], input[n..], size, left - n)
  }

  /** The events for these pieces of data, the first at `offset`. */
  function Number(pieces: seq<seq<byte>>, total: nat, offset: nat): seq<Event>
    decreases |pieces|
  {
    if pieces == [] then []
    else [Event(pieces[0], total, offset)] + Number(pieces[1..], total, offset + |pieces[0]|)
  }

  lemma NumberCons(log: seq<Event>, piece: seq<byte>, more: seq<seq<byte>>, total: nat, offset: nat)
    ensures log + Number([piece] + more, total, offset)
      == log + [Event(piece, total, offset)] + Number(more, total, offset + |piece|)
  {
    assert ([piece] + more)[1..] == more;
  }

  lemma ConcatCons(piece: seq<byte>, more: seq<seq<byte>>)
    ensures Concat([piece] + more) == piece + Concat(more)
  {
    assert ([piece] + more)[1..] == more;
  }

  /** The read that starts a message; none when it fails. */
  function FirstRead(script: seq<int>, input: seq<byte>, size: nat): seq<byte> {
    input[..Max0(NextRead(script, input, size))]
  }

  /** The pieces of data that follow the first one of a message. */
  function Later(script: seq<int>, input: seq<byte>, size: nat): seq<seq<byte>> {
    var read := FirstRead(script, input, size);
    if read == [] then []
    else Fragments(script[1..], input[|read|..], size, Max0(TotalLength(read) - |read|))
  }

  /** total_data_len of a message with this first read. */
  function Announced(read: seq<byte>): nat
    requires |read| > 0
  {
    Max0(TotalLength(read) - |read|) + |FirstData(read)|
  }

  /** What a message delivers, in one. */
  function Delivered(script: seq<int>, input: seq<byte>, size: nat): seq<byte> {
    var read := FirstRead(script, input, size);
    if read == [] then [] else FirstData(read) + Concat(Later(script, input, size))
  }

  /** The events tile their data: each starts where the one before it ends. */
  lemma {:induction false} NumberTiles(pieces: seq<seq<byte>>, total: nat, offset: nat, k: nat)
    requires k < |pieces|
    ensures |Number(pieces, total, offset)| == |pieces|
    ensures Number(pieces, total, offset)[k] == Event(pieces[k], total, offset + |Concat(pieces[..k])|)
    decreases |pieces|
  {
    if |pieces| > 1 {
      NumberTiles(pieces[1..], total, offset + |pieces[0]|, if k == 0 then 0 else k - 1);
    }
    if k > 0 {
      assert pieces[..k] == [pieces[0]] + pieces[1..][..k - 1];
      ConcatCons(pieces[0], pieces[1..][..k - 1]);
    }
  }

  lemma {:induction false} ConcatSnoc(pieces: seq<seq<byte>>, k: nat)
    requires k < |pieces|
    ensures |Concat(pieces[..k + 1])| == |Concat(pieces[..k])| + |pieces[k]|
    decreases |pieces|
  {
    if k == 0 {
      assert pieces[..1] == [pieces[0]] + [];
      ConcatCons(pieces[0], []);
    } else {
      ConcatSnoc(pieces[1..], k - 1);
      assert pieces[..k + 1] == [pieces[0]] + pieces[1..][..k];
      assert pieces[..k] == [pieces[0]] + pieces[1..][..k - 1];
      ConcatCons(pieces[0], pieces[1..][..k]);
      ConcatCons(pieces[0], pieces[1..][..k - 1]);
    }
  }

  /** After every event, what has been handed over and what is still to be read make up the total:
      `left` bytes were missing after the first read. */
  lemma EventsAccount(first: seq<byte>, later: seq<seq<byte>>, left: nat, k: nat)
    requires k <= |later|
    ensures |Number([first] + later, left + |first|, 0)| == 1 + |later|
    ensures var e := Number([first] + later, left + |first|, 0)[k];
      e.offset + |e.data| + (left - |Concat(later[..k])|) == e.total
  {
    NumberTiles([first] + later, left + |first|, 0, k);
    if k > 0 {
      assert ([first] + later)[..k] == [first] + later[..k - 1];
      ConcatCons(first, later[..k - 1]);
      ConcatSnoc(later, k - 1);
    }
  }

  lemma TakeOn(input: seq<byte>, n: nat, more: seq<byte>)
    requires n <= |input| && more <= input[n..]
    ensures input[..n] + more == input[..n + |more|]
  {
    assert more == input[n..][..|more|];
  }

  /** The later pieces are the next bytes of the stream, none beyond the message, and all of
      it unless a read fails. */
  lemma {:induction false} FragmentsAreNext(script: seq<int>, input: seq<byte>, size: nat, left: nat)
    requires size > 0
    ensures var all := Concat(Fragments(script, input, size, left));
      |all| <= left && all <= input
    ensures left <= |script| && left <= |input| && (forall i :: 0 <= i < left ==> script[i] > 0)
      ==> |Concat(Fragments(script, input, size, left))| == left
    decreases left
  {
    var n := NextRead(script, input, Min(left, size));
    if left > 0 && n > 0 {
      var more := Fragments(script[1..], input[n..], size, left - n);
      FragmentsAreNext(script[1..], input[n..], size, left - n);
      ConcatCons(input[..n], more);
      TakeOn(input, n, Concat(more));
      assert forall i :: 0 <= i < |script| - 1 ==> script[1..][i] == script[i + 1];
    }
  }

  lemma LaterGoesOn(script: seq<int>, input: seq<byte>, size: nat)
    requires size > 0 && FirstRead(script, input, size) != []
    requires |FirstRead(script, input, size)| <= TotalLength(FirstRead(script, input, size))
    ensures var all := FirstRead(script, input, size) + Concat(Later(script, input, size));
      all <= input && |all| <= TotalLength(FirstRead(script, input, size))
    ensures var total := TotalLength(FirstRead(script, input, size));
      total <= |script| && total <= |input| && (forall i :: 0 <= i < |script| ==> script[i] > 0)
      ==> |FirstRead(script, input, size) + Concat(Later(script, input, size))| == total
  {
    var read := FirstRead(script, input, size);
    FragmentsAreNext(script[1..], input[|read|..], size, TotalLength(read) - |read|);
    TakeOn(input, |read|, Concat(Later(script, input, size)));
  }

  lemma PayloadGoesOn(m: Publish, read: seq<byte>, more: seq<byte>)
    requires WellFormed(m) && |Header(m)| <= |read| && read + more <= Encode(m)
    ensures m.payload[..|read| - |Header(m)|] + more == m.payload[..|read| - |Header(m)| + |more|]
  {
    var n, k := |read|, |more|;
    PayloadPart(m, n);
    PayloadPart(m, n + k);
    assert read == (read + more)[..n];
    Assoc(Header(m), m.payload[..n - |Header(m)|], more);
  }

  /** A message whose header is in the first read: whatever the reads do, the events announce
      the length of the payload and their data is a start of it. */
  lemma HeaderReadDelivers(m: Publish, script: seq<int>, input: seq<byte>, size: nat)
    requires WellFormed(m) && Encode(m) <= input && size > 0
    requires |Header(m)| <= |FirstRead(script, input, size)| <= |Encode(m)|
    ensures Announced(FirstRead(script, input, size)) == |m.payload|
    ensures Delivered(script, input, size) <= m.payload
  {
    var read := FirstRead(script, input, size);
    assert read == Encode(m)[..|read|];
    FirstCut(m, |read|);
    LaterGoesOn(script, input, size);
    PayloadGoesOn(m, read, Concat(Later(script, input, size)));
  }

  /** When no read fails, the payload is delivered and the message read to its end exactly when
      the first read holds the whole header. */
  lemma DeliveredIffHeaderRead(m: Publish, script: seq<int>, input: seq<byte>, size: nat)
    requires WellFormed(m) && Encode(m) <= input && size > 0
    requires 0 < |FirstRead(script, input, size)| <= |Encode(m)| <= |script|
    requires forall i :: 0 <= i < |script| ==> script[i] > 0
    ensures Delivered(script, input, size) == m.payload
        && TotalLength(FirstRead(script, input, size)) == |Encode(m)|
      <==> |Header(m)| <= |FirstRead(script, input, size)|
  {
    var read := FirstRead(script, input, size);
    assert read == Encode(m)[..|read|];
    FirstCut(m, |read|);
    LaterGoesOn(script, input, size);
    if |Header(m)| <= |read| {
      HeaderReadDelivers(m, script, input, size);
    }
  }

  const LETTER: Publish := Publish(0x30, [116], [], [65])   // topic "t", payload "A"

  /** A first read of three bytes ends in the topic's length: the rest of the header is delivered in
      front of the payload. */
  lemma {:induction false} ExampleHeaderCut()
    ensures WellFormed(LETTER) && Encode(LETTER) == [0x30, 4, 0, 1, 116, 65]
    ensures Delivered([3, 9], Encode(LETTER), 1024) == [1, 116, 65] != LETTER.payload
  {
    var e: seq<byte> := [0x30, 4, 0, 1, 116, 65];
    assert Encode(LETTER) == e;
    assert FirstRead([3, 9], e, 1024) == e[..3] == [0x30, 4, 0];
    assert LengthFrom([0x30, 4, 0], 1, 1) == (2, 4);
    assert [3, 9][1..] == [9] && e[3..] == [1, 116, 65];
    var script: seq<int>, rest: seq<byte> := [9], [1, 116, 65];
    assert Fragments(script, rest, 1024, 3) == [rest[..3]] + Fragments(script[1..], rest[3..], 1024, 0);
    assert rest[..3] == rest;
    ConcatCons(rest, []);
    assert Later([3, 9], e, 1024) == [rest] + [];
  }

  class Client {
    const inBuffer: array<byte>
    const transport: Transport
    var messageLength: nat
    var messageLengthRead: nat
    var events: seq<Event>

    constructor (size: nat, transport: Transport)
      requires 0 < size < 0x10000
      ensures inBuffer.Length == size && fresh(inBuffer) && this.transport == transport
      ensures messageLength == 0 && messageLengthRead == 0
      ensures events == []
    {
      inBuffer := new byte[size];
      this.transport, messageLength, messageLengthRead, events := transport, 0, 0, [];
    }

    /** The pieces that are still to come for the current message. */
    ghost function Coming(): seq<seq<byte>>
      requires messageLengthRead <= messageLength
      reads this, transport
    {
      Fragments(transport.script, transport.input, inBuffer.Length, messageLength - messageLengthRead)
    }

    /** The read of deliver_publish, which never asks for more than the message has left. */
    method ReadMore() returns (n: int)
      requires inBuffer.Length > 0
      requires messageLengthRead < messageLength
      modifies `messageLengthRead, inBuffer, transport
      ensures messageLengthRead == old(messageLengthRead) + Max0(n) <= messageLength
      ensures n <= inBuffer.Length
      ensures n <= 0 ==> old(Coming()) == []
      ensures n > 0 ==> old(Coming()) == [inBuffer[..n]] + Coming()
    {
      var left := messageLength - messageLengthRead;
      n := transport.Read(inBuffer, 0, if left > inBuffer.Length then inBuffer.Length else left);
      if n > 0 {
        assert inBuffer[..n] == old(transport.input)[..n];
        messageLengthRead := messageLengthRead + n;
      }
    }

    /** One round of the loop of deliver_publish, up to the read; false when it breaks off. */
    method Round(length: nat, total0: nat, offset: nat, len0: nat, ghost read: seq<byte>)
      returns (on: bool, total: nat, len: nat, data: seq<byte>)
      requires 1 <= length == |read| <= inBuffer.Length && len0 <= inBuffer.Length
      requires messageLengthRead <= messageLength
      requires total0 == 0 ==> inBuffer[..length] == read
      modifies `events, `messageLengthRead, inBuffer, transport
      ensures data == if total0 == 0 then FirstData(read) else old(inBuffer[..len0])
      ensures total == if total0 == 0 then old(messageLength - messageLengthRead) + |data| else total0
      ensures events == old(events) + [Event(data, total, offset)]
      ensures len <= inBuffer.Length
      ensures on ==> messageLengthRead == old(messageLengthRead) + len <= messageLength
      ensures on ==> old(Coming()) == [inBuffer[..len]] + Coming()
      ensures on ==> total0 + len > 0 && (total0 == 0 ==> total > 0)
      ensures !on ==> old(Coming()) == [] && messageLengthRead == old(messageLengthRead)
    {
      if total0 == 0 {
        data := FirstData(inBuffer[..length]);
        total := messageLength - messageLengthRead + |data|;
      } else {
        data := inBuffer[..len0];
        total := total0;
      }
      events := events + [Event(data, total, offset)];
      on, len := false, 0;
      if messageLengthRead < messageLength {
        var n := ReadMore();
        if n > 0 {
          on, len := true, n;
        }
      }
    }

    method DeliverPublish(length: nat, ghost read: seq<byte>, ghost first: seq<byte>)
      requires 1 <= length == |read| <= inBuffer.Length
      requires messageLengthRead <= messageLength
      requires inBuffer[..length] == read && first == FirstData(read)
      modifies this, inBuffer, transport
      ensures messageLength == old(messageLength)
      ensures events == old(events)
        + Number([first] + old(Coming()), old(messageLength - messageLengthRead) + |first|, 0)
      ensures messageLengthRead == old(messageLengthRead) + |Concat(old(Coming()))| <= messageLength
    {
      var total: nat, offset: nat, len: nat, on := 0, 0, 0, true;
      ghost var pending := first;
      ghost var grand := messageLength - messageLengthRead + |first|;
      ghost var all := events + Number([first] + Coming(), grand, 0);
      ghost var end := messageLengthRead + |Concat(Coming())|;
      while on
        invariant messageLengthRead <= messageLength == old(messageLength)
        invariant len <= inBuffer.Length
        invariant on && total == 0 ==> pending == first && inBuffer[..length] == read
        invariant on && total != 0 ==> pending == inBuffer[..len]
        invariant on ==> grand == if total == 0 then messageLength - messageLengthRead + |first| else total
        invariant on ==> events + Number([pending] + Coming(), grand, offset) == all
        invariant on ==> messageLengthRead + |Concat(Coming())| == end
        invariant !on ==> events == all && messageLengthRead == end
        decreases on, messageLength - messageLengthRead
      {
        ghost var coming, log := Coming(), events;
        var data;
        on, total, len, data := Round(length, total, offset, len, read);
        NumberCons(log, pending, coming, grand, offset);
        offset := offset + |data|;
        if on {
          pending := inBuffer[..len];
          ConcatCons(pending, Coming());
        }
      }
    }

    /** The read of mqtt_process_receive that starts a message, and its length. */
    method ReadStart() returns (n: int, ghost read: seq<byte>)
      requires inBuffer.Length > 0
      modifies `messageLengthRead, `messageLength, inBuffer, transport
      ensures read == FirstRead(old(transport.script), old(transport.input), inBuffer.Length)
      ensures n <= inBuffer.Length && |read| == Max0(n)
      ensures n > 0 ==> inBuffer[..n] == read && messageLengthRead == n && messageLength == TotalLength(read)
      ensures 0 < n <= messageLength ==>
        Coming() == Later(old(transport.script), old(transport.input), inBuffer.Length)
    {
      n := transport.Read(inBuffer, 0, inBuffer.Length);
      read := FirstRead(old(transport.script), old(transport.input), inBuffer.Length);
      if n > 0 {
        assert inBuffer[..n] == read;
        messageLengthRead := n;
        messageLength := GetTotalLength(inBuffer[..n]);
      }
    }

    /** The PUBLISH branch of mqtt_process_receive, for a first read within one message. */
    method ProcessPublish()
      requires inBuffer.Length > 0
      requires var read := FirstRead(transport.script, transport.input, inBuffer.Length);
        |read| <= TotalLength(read)
      modifies this, inBuffer, transport
      ensures var script, input := old(transport.script), old(transport.input);
        var read := FirstRead(script, input, inBuffer.Length);
        if read == [] then events == old(events)
        else
          && events == old(events)
               + Number([FirstData(read)] + Later(script, input, inBuffer.Length), Announced(read), 0)
          && messageLength == TotalLength(read) >= messageLengthRead
    {
      var n, read := ReadStart();
      if n > 0 {
        DeliverPublish(n, read, FirstData(read));
      }
    }
  }
}
