/** A connection of httpd.c on values, one event at a time: head collection, the POST buffer, the
    calls of the CGI function, and what follows when the platform has sent its data or has closed
    the connection. */
module ReceiveModel {
  import opened Options
  import opened Bytes

  /** A blank line: CR LF CR LF. */
  predicate BlankAt(s: seq<byte>, i: nat) {
    i + 4 <= |s| && s[i] == CR && s[i + 1] == LF && s[i + 2] == CR && s[i + 3] == LF
  }

  /** What the rest of the server decides: the Content-Length found in a head, whether the
      response will be chunked, whether the last of these calls of the CGI ends the request, and
      HTTPD_MAX_POST_LEN. */
  datatype App = App(length: seq<byte> -> Option<nat>, chunked: seq<byte> -> bool,
                     done: seq<Call> -> bool, maxPost: nat)

  /** One call of the CGI, with the head and the POST buffer it sees: a hand-over of what has been
      received, a call that continues the response, or the call when the connection is gone. */
  datatype Call =
    | Call(head: seq<byte>, block: seq<byte>)
    | Again(head: seq<byte>, block: seq<byte>)
    | Farewell(head: seq<byte>, block: seq<byte>)

  /** `postLen` is negative while the head is received; `closing` is HFL_DISCONAFTERSENT; `asked`
      says that the platform has been asked to disconnect, `gone` that it has. */
  datatype Conn = Conn(head: seq<byte>, postLen: int, buff: seq<byte>, buffSize: nat, received: nat,
                       cgi: bool, chunked: bool, closing: bool, asked: bool, gone: bool, log: seq<Call>)

  const Fresh := Conn([], -1, [], 0, 0, false, false, false, false, false, [])

  /** strstr(head + i, "\r\n\r\n") != NULL */
  predicate HasBlankLine(head: seq<byte>, i: nat)
    decreases |head| - i
  {
    i < |head| && head[i] != NUL && (BlankAt(head, i) || HasBlankLine(head, i + 1))
  }

  /** httpdCgiIsDone: a chunked response frees the connection for another request, any other marks
      it for destruction. */
  function CgiIsDone(c: Conn): Conn {
    if c.chunked
    then c.(head := [], postLen := -1, buff := [], received := 0, cgi := false, chunked := false, closing := false)
    else c.(cgi := false, closing := true)
  }

  /** The CGI has been called: clean up when it says that it is done. */
  function Answered(app: App, c: Conn): Conn {
    if app.done(c.log) then CgiIsDone(c) else c
  }

  function CallCgi(app: App, c: Conn): Conn {
    Answered(app, c.(cgi := true, log := c.log + [Call(c.head, c.buff)]))
  }

  function Min(a: nat, b: nat): nat { if a < b then a else b }

  /** The end of the head: parse it, and answer at once when no body is announced. */
  function EndHead(app: App, c: Conn): Conn {
    var length := app.length(c.head);
    var parsed := c.(postLen := 0, chunked := app.chunked(c.head));
    if length.None? || length.value == 0 then CallCgi(app, parsed.(buff := []))
    else parsed.(postLen := length.value, buffSize := Min(length.value, app.maxPost), buff := [])
  }

  /** The bytes collected for a header byte: a lone LF gets a CR in front, except as the very
      first byte. */
  function Collected(head: seq<byte>, b: byte): seq<byte> {
    if b == LF && head != [] && head[|head| - 1] != CR then head + [CR, LF] else head + [b]
  }

  function HeadByte(app: App, c: Conn, b: byte): Conn {
    var c' := c.(head := Collected(c.head, b));
    if b == LF && HasBlankLine(c'.head, 0) then EndHead(app, c') else c'
  }

  function BodyByte(app: App, c: Conn, b: byte): Conn {
    var c' := c.(buff := c.buff + [b], received := c.received + 1);
    if |c'.buff| >= c'.buffSize || c'.received == c'.postLen then CallCgi(app, c').(buff := []) else c'
  }

  /** One byte of httpdRecvCb; without a receive handler, bytes behind a bodiless request are
      ignored. */
  function Step(app: App, c: Conn, b: byte): Conn {
    if c.postLen < 0 then HeadByte(app, c, b)
    else if c.postLen != 0 then BodyByte(app, c, b)
    else c
  }

  function After(app: App, c: Conn, data: seq<byte>): Conn
    decreases |data|
  {
    if data == [] then c else After(app, Step(app, c, data[0]), data[1..])
  }

  /** httpdContinue, with no backlog to send first. */
  function Continue(app: App, c: Conn): Conn {
    if c.closing then c.(asked := true)
    else if !c.cgi then c
    else Answered(app, c.(log := c.log + [Again(c.head, c.buff)]))
  }

  /** httpdDisconCb: what the CGI answers is ignored. */
  function Disconnect(c: Conn): Conn {
    if c.cgi then c.(gone := true, log := c.log + [Farewell(c.head, c.buff)]) else c.(gone := true)
  }

  /** A byte was received, the data has been sent, or the connection was closed by either side. */
  datatype Event = In(b: byte) | Sent | Closed

  /** A connection that is gone is not found any more. */
  function React(app: App, c: Conn, e: Event): Conn {
    if c.gone then c
    else
      match e
      case In(b) => Step(app, c, b)
      case Sent => Continue(app, c)
      case Closed => Disconnect(c)
  }

  function Run(app: App, c: Conn, evs: seq<Event>): Conn
    decreases |evs|
  {
    if evs == [] then c else Run(app, React(app, c, evs[0]), evs[1..])
  }

  lemma {:induction false} RunConcat(app: App, c: Conn, a: seq<Event>, b: seq<Event>)
    ensures Run(app, c, a + b) == Run(app, Run(app, c, a), b)
    decreases |a|
  {
    if a == [] {
      assert a + b == b;
    } else {
      assert (a + b)[0] == a[0] && (a + b)[1..] == a[1..] + b;
      RunConcat(app, React(app, c, a[0]), a[1..], b);
    }
  }

  lemma {:induction false} AfterConcat(app: App, c: Conn, a: seq<byte>, b: seq<byte>)
    ensures After(app, c, a + b) == After(app, After(app, c, a), b)
    decreases |a|
  {
    if a == [] {
      assert a + b == b;
    } else {
      assert (a + b)[0] == a[0] && (a + b)[1..] == a[1..] + b;
      AfterConcat(app, Step(app, c, a[0]), a[1..], b);
    }
  }

  // ----- the head -----

  /** The bytes received, with a CR put in front of each LF that has none, the first byte aside. */
  function Normal(bytes: seq<byte>, n: nat): seq<byte>
    requires n <= |bytes|
  {
    if n == 0 then []
    else Normal(bytes, n - 1) +
         (if bytes[n - 1] == LF && n >= 2 && bytes[n - 2] != CR then [CR, LF] else [bytes[n - 1]])
  }

  predicate EndsBlank(s: seq<byte>) {
    |s| >= 4 && BlankAt(s, |s| - 4)
  }

  /** The normal form of the first n bytes ends with a blank line and no NUL stands before it. */
  predicate Ends(bytes: seq<byte>, n: nat)
    requires n <= |bytes|
  {
    EndsBlank(Normal(bytes, n)) && NUL !in bytes[..n]
  }

  /** `bytes` is a complete head: its normal form ends with a blank line, for the first time, and
      holds no NUL. */
  predicate IsHead(bytes: seq<byte>) {
    Ends(bytes, |bytes|) && forall n :: 0 <= n < |bytes| ==> !Ends(bytes, n)
  }

  lemma {:induction false} NormalShape(bytes: seq<byte>, n: nat)
    requires n <= |bytes|
    ensures n > 0 ==> Normal(bytes, n) != [] && Normal(bytes, n)[|Normal(bytes, n)| - 1] == bytes[n - 1]
    ensures NUL in Normal(bytes, n) <==> NUL in bytes[..n]
  {
    if n > 0 {
      NormalShape(bytes, n - 1);
      assert bytes[..n] == bytes[..n - 1] + [bytes[n - 1]];
    }
  }

  /** A blank line that strstr can reach does not appear in the middle without having stood at
      the end earlier. */
  lemma {:induction false} BlankOnlyAtEnd(bytes: seq<byte>, n: nat, i: nat)
    requires n <= |bytes| && forall m :: 0 <= m < n ==> !Ends(bytes, m)
    requires BlankAt(Normal(bytes, n), i) && NUL !in Normal(bytes, n)[..i]
    ensures n > 0 && i + 4 == |Normal(bytes, n)| && bytes[n - 1] == LF && NUL !in bytes[..n]
  {
    var s := Normal(bytes, n);
    NormalShape(bytes, n);
    if n > 0 && i + 4 <= |Normal(bytes, n - 1)| {
      var p := Normal(bytes, n - 1);
      assert BlankAt(p, i) && p[..i] == s[..i];
      assert i + 4 == |p| && NUL !in bytes[..n - 1] ==> Ends(bytes, n - 1);
      BlankOnlyAtEnd(bytes, n - 1, i);
    } else if n > 0 {
      assert s == s[..i] + [CR, LF, CR, LF];
    }
  }

  /** What strstr finds: a blank line with no NUL before it. */
  lemma {:induction false} BlankFound(s: seq<byte>, i: nat)
    requires i <= |s|
    ensures HasBlankLine(s, i) <==> exists k :: i <= k < |s| && BlankAt(s, k) && NUL !in s[i..k]
    decreases |s| - i
  {
    if i < |s| {
      BlankFound(s, i + 1);
      forall k | i < k < |s| ensures NUL !in s[i..k] <==> s[i] != NUL && NUL !in s[i + 1..k] {
        assert s[i..k] == [s[i]] + s[i + 1..k];
      }
      assert s[i..i] == [];
    }
  }

  /** On the head held, the search behind an LF succeeds exactly when that byte has completed the
      first blank line and no NUL stands before it. */
  lemma BlankIffEnds(bytes: seq<byte>, n: nat)
    requires 0 < n <= |bytes| && forall m :: 0 <= m < n ==> !Ends(bytes, m)
    ensures bytes[n - 1] == LF && HasBlankLine(Normal(bytes, n), 0) <==> Ends(bytes, n)
  {
    var s := Normal(bytes, n);
    NormalShape(bytes, n);
    BlankFound(s, 0);
    if Ends(bytes, n) {
      assert BlankAt(s, |s| - 4) && NUL !in s[0..|s| - 4];
    }
    if k :| 0 <= k < |s| && BlankAt(s, k) && NUL !in s[0..k] {
      BlankOnlyAtEnd(bytes, n, k);
      assert BlankAt(s, |s| - 4);
    }
  }

  predicate AwaitsHead(c: Conn) {
    c.head == [] && c.postLen < 0
  }

  lemma HeadStep(app: App, c: Conn, bytes: seq<byte>, n: nat)
    requires AwaitsHead(c) && n < |bytes|
    requires forall m :: 0 <= m <= n ==> !Ends(bytes, m)
    ensures var h := c.(head := Normal(bytes, n + 1));
            Step(app, c.(head := Normal(bytes, n)), bytes[n]) == if Ends(bytes, n + 1) then EndHead(app, h) else h
  {
    NormalShape(bytes, n);
    BlankIffEnds(bytes, n + 1);
  }

  /** Before the head is complete, exactly the normal form of all bytes so far is held. */
  lemma {:induction false} HeadSoFar(app: App, c: Conn, bytes: seq<byte>, n: nat)
    requires AwaitsHead(c) && n <= |bytes|
    requires forall m :: 0 <= m <= n ==> !Ends(bytes, m)
    ensures After(app, c, bytes[..n]) == c.(head := Normal(bytes, n))
    decreases n
  {
    if n > 0 {
      HeadSoFar(app, c, bytes, n - 1);
      HeadStep(app, c, bytes, n - 1);
      AfterOne(app, c, bytes, n - 1);
    }
  }

  lemma AfterOne(app: App, c: Conn, bytes: seq<byte>, n: nat)
    requires n < |bytes|
    ensures After(app, c, bytes[..n + 1]) == Step(app, After(app, c, bytes[..n]), bytes[n])
  {
    var d := After(app, c, bytes[..n]);
    assert bytes[..n + 1] == bytes[..n] + [bytes[n]];
    AfterConcat(app, c, bytes[..n], [bytes[n]]);
    assert After(app, d, [bytes[n]]) == After(app, Step(app, d, bytes[n]), []);
  }

  /** A head without a NUL is parsed at its first blank line, in its normal form. */
  lemma HeadEnds(app: App, c: Conn, bytes: seq<byte>)
    requires AwaitsHead(c) && IsHead(bytes)
    ensures After(app, c, bytes) == EndHead(app, c.(head := Normal(bytes, |bytes|)))
  {
    var n := |bytes| - 1;
    assert bytes != [] by { assert Normal(bytes, 0) == []; }
    HeadSoFar(app, c, bytes, n);
    HeadStep(app, c, bytes, n);
    AfterOne(app, c, bytes, n);
    assert bytes[..n + 1] == bytes;
  }

  /** The normal form ends with its first blank line, NULs or not. */
  predicate FirstBlank(bytes: seq<byte>) {
    EndsBlank(Normal(bytes, |bytes|)) && forall n :: 0 <= n < |bytes| ==> !EndsBlank(Normal(bytes, n))
  }

  lemma {:induction false} NormalOfPrefix(a: seq<byte>, b: seq<byte>, n: nat)
    requires n <= |a| <= |b| && a == b[..|a|]
    ensures Normal(a, n) == Normal(b, n)
  {
    if n > 0 {
      NormalOfPrefix(a, b, n - 1);
    }
  }

  /** With a NUL before the first blank line, nothing ever ends. */
  lemma NeverEnds(bytes: seq<byte>, more: seq<byte>, n: nat)
    requires FirstBlank(bytes) && NUL in bytes && n <= |bytes + more|
    ensures !Ends(bytes + more, n)
  {
    var all := bytes + more;
    assert bytes == all[..|bytes|];
    if n < |bytes| {
      NormalOfPrefix(bytes, all, n);
    } else {
      var k :| 0 <= k < |bytes| && bytes[k] == NUL;
      assert all[..n][k] == NUL;
    }
  }

  /** The head is parsed at its first blank line if and only if no NUL stands before it. */
  lemma ParsedIffNoNul(app: App, c: Conn, bytes: seq<byte>)
    requires AwaitsHead(c) && FirstBlank(bytes)
    ensures After(app, c, bytes) == EndHead(app, c.(head := Normal(bytes, |bytes|))) <==> NUL !in bytes
  {
    if NUL in bytes {
      StaysAHead(app, c, bytes, []);
      assert bytes + [] == bytes;
      NormalShape(bytes, |bytes|);
    } else {
      assert forall n :: 0 <= n < |bytes| ==> !Ends(bytes, n);
      assert bytes[..|bytes|] == bytes;
      HeadEnds(app, c, bytes);
    }
  }

  /** Otherwise it never is: whatever comes is held as more of the head. */
  lemma StaysAHead(app: App, c: Conn, bytes: seq<byte>, more: seq<byte>)
    requires AwaitsHead(c) && FirstBlank(bytes) && NUL in bytes
    ensures After(app, c, bytes + more) == c.(head := Normal(bytes + more, |bytes + more|))
  {
    var all := bytes + more;
    forall n | 0 <= n <= |all| ensures !Ends(all, n) {
      NeverEnds(bytes, more, n);
    }
    HeadSoFar(app, c, all, |all|);
    assert all[..|all|] == all;
  }

  const NUL_HEAD: seq<byte> := [71, NUL, LF, LF]

  /** "G", NUL and two line feeds: a head that is never parsed, whatever follows it. */
  lemma ExampleNulInHead(app: App, more: seq<byte>)
    ensures Normal(NUL_HEAD, 4) == [71, NUL, CR, LF, CR, LF]
    ensures After(app, Fresh, NUL_HEAD + more) ==
            Fresh.(head := Normal(NUL_HEAD + more, |NUL_HEAD + more|))
  {
    var b := NUL_HEAD;
    assert Normal(b, 1) == [71] && Normal(b, 2) == [71, NUL];
    assert Normal(b, 3) == [71, NUL, CR, LF] && Normal(b, 4) == [71, NUL, CR, LF, CR, LF];
    assert b[1] == NUL;
    StaysAHead(app, Fresh, b, more);
  }
}
