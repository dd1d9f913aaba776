/** The compacting receive buffer of esp_request.c on values: what strstr and the line reader
    see in it, including bytes left over from before the last compaction. */
module ReaderModel {
  import opened Options
  import opened Bytes
  import opened HeaderSplit

  /** `data[rd..wr]` has been received and not consumed. */
  datatype Buf = Buf(data: seq<byte>, rd: nat, wr: nat)

  /** req_readline: the next line, with its CRLF overwritten by two NULs. */
  function ReadLine(b: Buf): Option<(seq<byte>, Buf)> {
    if b.rd + 2 > b.wr then None
    else
      var cr := StrStr(b.data, b.rd);
      if cr.None? then None
      else Some((b.data[b.rd..cr.value],
                 b.(data := b.data[cr.value := NUL][cr.value + 1 := NUL], rd := cr.value + 2)))
  }

  datatype Taken = Taken(lines: seq<seq<byte>>, done: bool, buf: Buf)

  /** The line loop of req_process_download: lines up to an empty one, or while there are any. */
  function TakeLines(b: Buf): Taken
    decreases |b.data| - b.rd
  {
    var next := ReadLine(b);
    if next.None? then Taken([], false, b)
    else
      var (line, b') := next.value;
      if line == [] then Taken([], true, b')
      else
        var more := TakeLines(b');
        more.(lines := [line] + more.lines)
  }

  /** `whole` is what `rest` yields, behind these lines. */
  predicate Behind(whole: Taken, lines: seq<seq<byte>>, rest: Taken) {
    whole == rest.(lines := lines + rest.lines)
  }

  lemma {:induction false} TakeOne(whole: Taken, lines: seq<seq<byte>>, b: Buf)
    requires Behind(whole, lines, TakeLines(b))
    ensures ReadLine(b).None? ==> whole == Taken(lines, false, b)
    ensures ReadLine(b).Some? && ReadLine(b).value.0 == [] ==> whole == Taken(lines, true, ReadLine(b).value.1)
    ensures ReadLine(b).Some? && ReadLine(b).value.0 != [] ==>
              Behind(whole, lines + [ReadLine(b).value.0], TakeLines(ReadLine(b).value.1))
  {
    assert lines + [] == lines;
    if ReadLine(b).Some? {
      Assoc(lines, [ReadLine(b).value.0], TakeLines(ReadLine(b).value.1).lines);
    }
  }

  /** fill_buffer's memmove: the unconsumed bytes go to the front, the rest stays behind them. */
  function Compact(b: Buf): Buf
    requires b.rd <= b.wr <= |b.data|
  {
    var pending := b.data[b.rd..b.wr];
    Buf(pending + b.data[|pending|..], 0, |pending|)
  }

  // ----- after a successful read -----

  /** Terminated at `wr`, and nothing but cut lines in front of `rd`. */
  ghost predicate Tidy(b: Buf) {
    && b.rd <= b.wr < |b.data|
    && b.data[b.wr] == NUL
    && forall k :: 0 <= k < b.rd ==> !CrlfAt(b.data, k)
  }

  /** What the line loop leaves behind when it found no further line. */
  ghost predicate Drained(b: Buf) {
    Tidy(b) && LineEnd(b.data[b.rd..b.wr]).None?
  }

  lemma {:induction false} StrStrSkips(data: seq<byte>, i: nat, j: nat)
    requires i <= j <= |data|
    requires forall k :: i <= k < j ==> data[k] != NUL && !CrlfAt(data, k)
    ensures StrStr(data, i) == StrStr(data, j)
    decreases j - i
  {
    if i < j {
      StrStrSkips(data, i + 1, j);
    }
  }

  lemma {:induction false} StrStrIn(b: Buf, i: nat)
    requires b.rd <= b.wr < |b.data| && b.data[b.wr] == NUL && b.rd + i <= b.wr
    ensures var cr := StrStr(b.data[b.rd..b.wr], i);
            StrStr(b.data, b.rd + i) == if cr.Some? then Some(b.rd + cr.value) else None
    decreases b.wr - i
  {
    var p := b.data[b.rd..b.wr];
    if i < |p| && p[i] != NUL && !CrlfAt(p, i) {
      assert !CrlfAt(b.data, b.rd + i);
      StrStrIn(b, i + 1);
    }
  }

  /** In a buffer with a NUL behind the unconsumed bytes, strstr sees exactly what they show. */
  lemma StrStrFindsFirst(b: Buf)
    requires Tidy(b)
    ensures var cr := LineEnd(b.data[b.rd..b.wr]);
            StrStr(b.data, b.rd) == if cr.Some? then Some(b.rd + cr.value) else None
  {
    StrStrIn(b, 0);
  }

  lemma SliceOfSlice<T>(s: seq<T>, lo: nat, hi: nat, i: nat)
    requires lo <= hi <= |s| && lo + i <= hi
    ensures s[lo..hi][..i] == s[lo..lo + i] && s[lo..hi][i..] == s[lo + i..hi]
  {
  }

  /** One line read is one step of the split. */
  lemma ReadLineStep(b: Buf, i: nat)
    requires Tidy(b) && LineEnd(b.data[b.rd..b.wr]) == Some(i)
    ensures ReadLine(b).Some?
    ensures var p, (line, b') := b.data[b.rd..b.wr], ReadLine(b).value;
            && line == p[..i]
            && |b'.data| == |b.data| && b'.wr == b.wr && b'.rd == b.rd + i + 2 <= b.wr
            && b'.data[b'.rd..b.wr] == p[i + 2..] && b'.data[b.wr] == NUL
            && forall k :: 0 <= k < b'.rd ==> !CrlfAt(b'.data, k)
  {
    var p := b.data[b.rd..b.wr];
    StrStrFindsFirst(b);
    LineEndIs(p, 0);
    var at := b.rd + i;
    assert at + 1 < b.wr;
    SliceOfSlice(b.data, b.rd, b.wr, i);
    CutLeavesNone(b.data, ReadLine(b).value.1.data, b.rd, at, p);
  }

  /** Up to the end of a line that has been cut there is no CRLF. */
  lemma CutLeavesNone(d: seq<byte>, d': seq<byte>, lo: nat, at: nat, p: seq<byte>)
    requires lo <= at && at + 1 < |d| && at - lo <= |p| && d' == d[at := NUL][at + 1 := NUL]
    requires forall k :: 0 <= k < lo ==> !CrlfAt(d, k)
    requires forall k :: 0 <= k < at - lo ==> !CrlfAt(p, k) && CrlfAt(p, k) == CrlfAt(d, lo + k)
    ensures forall k :: 0 <= k < at + 2 ==> !CrlfAt(d', k)
  {
    forall k | lo <= k < at ensures !CrlfAt(d, k) {
      assert CrlfAt(p, k - lo) == CrlfAt(d, lo + (k - lo));
    }
    forall k | 0 <= k < at + 2 ensures !CrlfAt(d', k) {
      assert k + 1 < at ==> CrlfAt(d', k) == CrlfAt(d, k);
    }
  }

  /** The line loop yields exactly the CRLF split of the unconsumed bytes, as far as C strings show
      it. */
  lemma {:induction false} TakeLinesIsSplit(b: Buf)
    requires Tidy(b)
    ensures var t, h := TakeLines(b), Split(b.data[b.rd..b.wr]);
            && t.lines == h.lines && t.done == h.done
            && |t.buf.data| == |b.data| && t.buf.wr == b.wr && b.rd <= t.buf.rd <= b.wr
            && t.buf.data[t.buf.rd..b.wr] == h.rest
            && (!t.done ==> Drained(t.buf))
    decreases |b.data| - b.rd
  {
    var p := b.data[b.rd..b.wr];
    var cr := LineEnd(p);
    if cr.None? {
      StrStrFindsFirst(b);
    } else {
      ReadLineStep(b, cr.value);
      if cr.value != 0 {
        TakeLinesIsSplit(ReadLine(b).value.1);
      }
    }
  }

  // ----- after a failed read -----

  /** A failed read leaves the compacted bytes without a terminator, so the byte behind them is
      an old one.  A line that the peer never ended is then made up exactly when at least two
      bytes were waiting, none of them a NUL and the last a CR, and the old byte behind them is an
      LF. */
  predicate MakesUpLine(b: Buf)
    requires b.rd <= b.wr < |b.data|
  {
    var n := b.wr - b.rd;
    n >= 2 && b.data[b.wr - 1] == CR && b.data[n] == LF && NUL !in b.data[b.rd..b.wr]
  }

  lemma FailedReadLines(b: Buf)
    requires Drained(b)
    ensures var t := TakeLines(Compact(b));
            && !t.done
            && (t.lines != [] <==> MakesUpLine(b))
            && (t.lines != [] ==> t.lines == [b.data[b.rd..b.wr - 1]])
  {
    var p := b.data[b.rd..b.wr];
    var c := Compact(b);
    if NUL in p {
      assert p[0..] == p;
      NulBlocks(p, c.data[|p|..], 0);
      assert c.data == p + c.data[|p|..];
    } else if |p| >= 2 {
      NoCrlf(b);
      FailedAtJoint(b);
    }
  }

  /** Without a NUL among the unconsumed bytes there is no CRLF anywhere up to `wr`. */
  lemma NoCrlf(b: Buf)
    requires Drained(b) && NUL !in b.data[b.rd..b.wr]
    ensures forall k :: 0 <= k <= b.wr ==> !CrlfAt(b.data, k)
  {
    var p := b.data[b.rd..b.wr];
    LineEndIs(p, 0);
    forall k | 0 <= k <= b.wr ensures !CrlfAt(b.data, k) {
      assert k >= b.rd && CrlfAt(b.data, k) ==> k + 1 < b.wr && CrlfAt(p, k - b.rd);
    }
  }

  /** Only at the joint of the bytes moved to the front with what was there can a CRLF arise. */
  lemma FailedAtJoint(b: Buf)
    requires Drained(b) && NUL !in b.data[b.rd..b.wr] && b.rd + 2 <= b.wr
    requires forall k :: 0 <= k <= b.wr ==> !CrlfAt(b.data, k)
    ensures var t := TakeLines(Compact(b));
            && !t.done
            && (t.lines != [] <==> MakesUpLine(b))
            && (t.lines != [] ==> t.lines == [b.data[b.rd..b.wr - 1]])
  {
    var p := b.data[b.rd..b.wr];
    var c := Compact(b);
    var joint := |p| - 1;
    forall k | 0 <= k < joint ensures c.data[k] != NUL && !CrlfAt(c.data, k) {
      assert c.data[k] == p[k] && c.data[k + 1] == p[k + 1] && p[k] in p;
      assert !CrlfAt(b.data, b.rd + k) && b.data[b.rd + k] == p[k] && b.data[b.rd + k + 1] == p[k + 1];
    }
    StrStrSkips(c.data, 0, joint);
    assert p[joint] in p;
    if CrlfAt(c.data, joint) {
      assert ReadLine(c).value.0 == p[..joint] == b.data[b.rd..b.wr - 1];
      assert ReadLine(ReadLine(c).value.1).None?;
    } else {
      assert StrStr(c.data, 0) == StrStr(c.data, |p|);
      NothingBehind(b, |p|);
      SameTail(c.data, b.data, |p|);
    }
  }

  lemma {:induction false} NothingBehind(b: Buf, i: nat)
    requires Drained(b) && i <= b.wr && forall k :: 0 <= k <= b.wr ==> !CrlfAt(b.data, k)
    ensures StrStr(b.data, i).None?
    decreases b.wr - i
  {
    if i < b.wr {
      NothingBehind(b, i + 1);
    }
  }

  lemma {:induction false} SameTail(x: seq<byte>, y: seq<byte>, i: nat)
    requires |x| == |y| && i <= |x| && x[i..] == y[i..]
    ensures StrStr(x, i) == StrStr(y, i)
    decreases |x| - i
  {
    if i < |x| {
      assert x[i] == x[i..][0] && y[i] == y[i..][0];
      assert i + 1 < |x| ==> x[i + 1] == x[i..][1] && y[i + 1] == y[i..][1];
      assert x[i + 1..] == x[i..][1..] && y[i + 1..] == y[i..][1..];
      SameTail(x, y, i + 1);
    }
  }

  /** A refill with `chunk`: the line loop carries the split of the stream on, and the head cannot
      end unless new bytes came. */
  lemma FreshBytes(seen: seq<byte>, chunk: seq<byte>, b: Buf)
    requires !Split(seen).done
    requires b.rd == 0 && b.wr < |b.data| && b.data[b.wr] == NUL
    requires b.data[..b.wr] == Split(seen).rest + chunk
    ensures var t := TakeLines(b);
            && t.buf.rd <= t.buf.wr == b.wr && |t.buf.data| == |b.data|
            && Split(seen + chunk) ==
               Head(Split(seen).lines + t.lines, t.done, t.buf.data[t.buf.rd..t.buf.wr])
            && (!t.done ==> Drained(t.buf))
            && (t.done ==> chunk != [])
  {
    var rest := Split(seen).rest;
    RestUnfinished(seen);
    assert b.data[0..b.wr] == rest + chunk;
    TakeLinesIsSplit(b);
    SplitContinues(seen, chunk);
    if chunk == [] {
      assert rest + chunk == rest;
    }
  }

  /** Such an input: the head "abc<LF>d<CR><LF>xy<CR>" read at once, then a failed read. */
  const EXAMPLE: seq<byte> := [97, 98, 99, LF, 100, CR, LF, 120, 121, CR]
  const EXAMPLE_LEFT := Buf([97, 98, 99, LF, 100, NUL, NUL, 120, 121, CR, NUL], 7, 10)

  lemma ExampleIsRead()
    ensures Split(EXAMPLE) == Head([EXAMPLE[..5]], false, EXAMPLE[7..])
    ensures TakeLines(Buf(EXAMPLE + [NUL], 0, 10)) == Taken([EXAMPLE[..5]], false, EXAMPLE_LEFT)
    ensures Drained(EXAMPLE_LEFT)
  {
    var p := EXAMPLE_LEFT.data[7..10];
    assert p == EXAMPLE[7..];
    FirstCrlfIs(EXAMPLE, 5);
    LineEndIs(EXAMPLE, 0);
    assert EXAMPLE[0..5] == [97, 98, 99, LF, 100];
    assert LineEnd(p).None?;
    var b := Buf(EXAMPLE + [NUL], 0, 10);
    assert b.data[0..10] == EXAMPLE;
    StrStrFindsFirst(b);
    StrStrFindsFirst(EXAMPLE_LEFT);
    assert b.data[0..5] == EXAMPLE[..5];
    assert b.data[5 := NUL][6 := NUL] == EXAMPLE_LEFT.data;
  }

  lemma ExampleMakesUpALine()
    ensures TakeLines(Compact(EXAMPLE_LEFT)).lines == [[120, 121]]
  {
    ExampleIsRead();
    FailedReadLines(EXAMPLE_LEFT);
    assert EXAMPLE_LEFT.data[7..9] == [120, 121] && EXAMPLE_LEFT.data[7..10] == [120, 121, CR];
  }
}
