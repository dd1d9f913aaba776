/** What an HTTP response head is, without any buffer: cut the stream at each CRLF up to the
    first empty line; what follows is the body. A reader that looks for the CRLF with strstr sees
    no further than the first NUL. */
module HeaderSplit {
  import opened Options
  import opened Bytes

  function CrlfFrom(s: seq<byte>, i: nat): (r: Option<nat>)
    ensures r.Some? ==> i <= r.value && CrlfAt(s, r.value) && forall k :: i <= k < r.value ==> !CrlfAt(s, k)
    ensures r.None? ==> forall k :: i <= k < |s| ==> !CrlfAt(s, k)
    decreases |s| - i
  {
    if i >= |s| then None else if CrlfAt(s, i) then Some(i) else CrlfFrom(s, i + 1)
  }

  function FirstCrlf(s: seq<byte>): Option<nat> {
    CrlfFrom(s, 0)
  }

  /** `rest` is the body once `done`, else the start of a line whose end has not come. */
  datatype Head = Head(lines: seq<seq<byte>>, done: bool, rest: seq<byte>)

  /** The head by itself: cut at each CRLF. */
  function Plain(s: seq<byte>): Head
    decreases |s|
  {
    var cr := FirstCrlf(s);
    if cr.None? then Head([], false, s)
    else if cr.value == 0 then Head([], true, s[2..])
    else Then([s[..cr.value]], Plain(s[cr.value + 2..]))
  }

  /** strstr(s + i, "\r\n"): the first CRLF from i on, if no NUL stands before it. */
  function StrStr(s: seq<byte>, i: nat): (r: Option<nat>)
    ensures r.Some? ==> i <= r.value && CrlfAt(s, r.value)
    ensures r.Some? ==> forall k :: i <= k < r.value + 2 ==> s[k] != NUL
    decreases |s| - i
  {
    if i >= |s| || s[i] == NUL then None else if CrlfAt(s, i) then Some(i) else StrStr(s, i + 1)
  }

  function LineEnd(s: seq<byte>): Option<nat> {
    StrStr(s, 0)
  }

  /** The head as C strings show it. */
  function Split(s: seq<byte>): Head
    decreases |s|
  {
    var cr := LineEnd(s);
    if cr.None? then Head([], false, s)
    else if cr.value == 0 then Head([], true, s[2..])
    else Then([s[..cr.value]], Split(s[cr.value + 2..]))
  }

  /** The lines `lines`, then the head `h`. */
  function Then(lines: seq<seq<byte>>, h: Head): Head {
    h.(lines := lines + h.lines)
  }

  /** No NUL before the end of the head. */
  predicate HeadHasNoNul(s: seq<byte>)
    decreases |s|
  {
    var cr := FirstCrlf(s);
    if cr.None? then NUL !in s
    else NUL !in s[..cr.value] && (cr.value == 0 || HeadHasNoNul(s[cr.value + 2..]))
  }

  /** Each line fits a buffer of `n` bytes with its CRLF, and so does an unfinished one. */
  predicate HeadFits(s: seq<byte>, n: nat)
    decreases |s|
  {
    var cr := LineEnd(s);
    if cr.None? then |s| < n
    else cr.value + 2 <= n && (cr.value == 0 || HeadFits(s[cr.value + 2..], n))
  }

  // ----- what a NUL does -----

  lemma {:induction false} LineEndIs(s: seq<byte>, i: nat)
    requires i <= |s|
    ensures var cr := CrlfFrom(s, i);
            StrStr(s, i) == if cr.Some? && NUL !in s[i..cr.value] then cr else None
    decreases |s| - i
  {
    if i < |s| {
      LineEndIs(s, i + 1);
      var cr := CrlfFrom(s, i);
      assert cr.Some? && cr.value > i ==> s[i..cr.value] == [s[i]] + s[i + 1..cr.value];
    }
  }

  /** Without a NUL before its end, the head is read as it is. */
  lemma {:induction false} NoNulSplit(s: seq<byte>)
    requires HeadHasNoNul(s)
    ensures Split(s) == Plain(s)
    decreases |s|
  {
    var cr := FirstCrlf(s);
    LineEndIs(s, 0);
    if cr.Some? {
      assert s[0..cr.value] == s[..cr.value];
      if cr.value != 0 {
        NoNulSplit(s[cr.value + 2..]);
      }
    }
  }

  function FirstNul(s: seq<byte>, i: nat): (z: nat)
    requires i <= |s| && NUL in s[i..]
    ensures i <= z < |s| && s[z] == NUL && NUL !in s[i..z]
    decreases |s| - i
  {
    assert s[i..] == [s[i]] + s[i + 1..];
    if s[i] == NUL then i
    else
      var z := FirstNul(s, i + 1);
      assert s[i..z] == [s[i]] + s[i + 1..z];
      z
  }

  /** A first line does not depend on where the rest is cut off. */
  lemma FirstLineStays(s: seq<byte>, i: nat, n: nat)
    requires FirstCrlf(s) == Some(i) && i > 0 && i + 2 + n <= |s|
    ensures Plain(s[..i + 2 + n]) == Then([s[..i]], Plain(s[i + 2..][..n]))
    ensures s[..i + 2 + n] == s[..i] + [CR, LF] + s[i + 2..][..n]
  {
    var before := s[..i + 2 + n];
    assert forall k :: 0 <= k <= i ==> CrlfAt(before, k) == CrlfAt(s, k);
    FirstCrlfIs(before, i);
    assert before[i + 2..] == s[i + 2..][..n] && before[..i] == s[..i];
  }

  /** z is the first NUL, and the head stops there. */
  predicate StopsAt(s: seq<byte>, z: nat) {
    && z < |s| && s[z] == NUL && NUL !in s[..z]
    && !Split(s).done && !Plain(s[..z]).done && Split(s).lines == Plain(s[..z]).lines
  }

  lemma StopsLater(s: seq<byte>, i: nat, z: nat)
    requires FirstCrlf(s) == Some(i) && LineEnd(s) == Some(i) && i > 0 && NUL !in s[..i]
    requires StopsAt(s[i + 2..], z)
    ensures StopsAt(s, i + 2 + z)
  {
    FirstLineStays(s, i, z);
  }

  /** With a NUL before its end, the head never ends, and its lines are those before the NUL. */
  lemma {:induction false} NulStops(s: seq<byte>) returns (z: nat)
    requires !HeadHasNoNul(s)
    ensures StopsAt(s, z)
    decreases |s|
  {
    var cr := FirstCrlf(s);
    LineEndIs(s, 0);
    assert cr.Some? ==> s[0..cr.value] == s[..cr.value];
    if cr.Some? && NUL !in s[..cr.value] {
      z := NulStops(s[cr.value + 2..]);
      StopsLater(s, cr.value, z);
      z := cr.value + 2 + z;
    } else {
      assert cr.Some? ==> NUL in s[..cr.value];
      assert s[0..] == s;
      z := FirstNul(s, 0);
      NoCrlfBefore(s, z);
    }
  }

  lemma NoCrlfBefore(s: seq<byte>, z: nat)
    requires z < |s| && s[z] == NUL && NUL !in s[0..z] && LineEnd(s).None?
    ensures FirstCrlf(s[..z]).None? && s[0..z] == s[..z]
  {
    LineEndIs(s, 0);
    assert forall k :: 0 <= k < z ==> CrlfAt(s[..z], k) ==> CrlfAt(s, k);
    assert forall k :: 0 <= k <= z ==> NUL !in s[0..k];
  }

  lemma FirstCrlfIs(s: seq<byte>, i: nat)
    requires CrlfAt(s, i) && forall k :: 0 <= k < i ==> !CrlfAt(s, k)
    ensures FirstCrlf(s) == Some(i)
  {
  }

  // ----- reading on -----

  /** A line that ends in the first part ends there in the whole. */
  lemma {:induction false} LineEndExtends(a: seq<byte>, b: seq<byte>, i: nat)
    requires StrStr(a, i).Some?
    ensures StrStr(a + b, i) == StrStr(a, i)
    decreases |a| - i
  {
    assert (a + b)[i] == a[i] && CrlfAt(a, i) == (i + 1 < |a| && CrlfAt(a + b, i));
    if !CrlfAt(a, i) {
      LineEndExtends(a, b, i + 1);
    }
  }

  lemma ThenThen(x: seq<seq<byte>>, y: seq<seq<byte>>, h: Head)
    ensures Then(x, Then(y, h)) == Then(x + y, h) && Then([], h) == h
  {
    assert x + (y + h.lines) == (x + y) + h.lines;
    assert [] + h.lines == h.lines;
  }

  /** Reading on after an unfinished head: the lines found so far stand, and the split goes on
      from the unfinished line. */
  lemma {:induction false} SplitContinues(a: seq<byte>, b: seq<byte>)
    requires !Split(a).done
    ensures Split(a + b) == Then(Split(a).lines, Split(Split(a).rest + b))
    decreases |a|
  {
    var cr := LineEnd(a);
    if cr.Some? {
      var line, tail := a[..cr.value], a[cr.value + 2..];
      LineEndExtends(a, b, 0);
      assert (a + b)[cr.value + 2..] == tail + b && (a + b)[..cr.value] == line;
      SplitContinues(tail, b);
      ThenThen([line], Split(tail).lines, Split(Split(tail).rest + b));
    } else {
      ThenThen([], [], Split(a + b));
    }
  }

  lemma {:induction false} FitsContinues(a: seq<byte>, b: seq<byte>, n: nat)
    requires !Split(a).done && HeadFits(a + b, n)
    ensures HeadFits(Split(a).rest + b, n)
    decreases |a|
  {
    var cr := LineEnd(a);
    if cr.Some? {
      var tail := a[cr.value + 2..];
      LineEndExtends(a, b, 0);
      assert (a + b)[cr.value + 2..] == tail + b;
      FitsContinues(tail, b, n);
    }
  }

  /** After the head, whatever comes belongs to the body. */
  lemma {:induction false} SplitFinished(a: seq<byte>, b: seq<byte>)
    requires Split(a).done
    ensures Split(a + b) == Split(a).(rest := Split(a).rest + b)
    decreases |a|
  {
    var cr := LineEnd(a).value;
    LineEndExtends(a, b, 0);
    assert (a + b)[cr + 2..] == a[cr + 2..] + b;
    if cr != 0 {
      assert (a + b)[..cr] == a[..cr];
      SplitFinished(a[cr + 2..], b);
    }
  }

  /** The unfinished line itself holds no CRLF. */
  lemma {:induction false} RestUnfinished(s: seq<byte>)
    requires !Split(s).done
    ensures LineEnd(Split(s).rest).None?
    decreases |s|
  {
    var cr := LineEnd(s);
    if cr.Some? {
      RestUnfinished(s[cr.value + 2..]);
    }
  }

  /** The start `p` of an unfinished line leaves room in the buffer. */
  lemma PendingFits(p: seq<byte>, more: seq<byte>, n: nat)
    requires LineEnd(p).None? && n >= 2 && HeadFits(p + more, n)
    ensures |p| < n
  {
    var s := p + more;
    var cr := LineEnd(s);
    if cr.Some? && cr.value + 1 < |p| {
      LineEndInside(s, p, 0);
    }
  }

  /** A line that ends within a first part ends in it. */
  lemma {:induction false} LineEndInside(s: seq<byte>, p: seq<byte>, i: nat)
    requires p <= s && StrStr(s, i).Some? && StrStr(s, i).value + 1 < |p|
    ensures StrStr(p, i) == StrStr(s, i)
    decreases |s| - i
  {
    assert p[i] == s[i] && p[i + 1] == s[i + 1];
    if !CrlfAt(s, i) {
      LineEndInside(s, p, i + 1);
    }
  }

  /** Whatever comes behind a NUL in the head, the lines stay the same and the head never ends. */
  lemma {:induction false} NulStopsForGood(a: seq<byte>, b: seq<byte>)
    requires !HeadHasNoNul(a)
    ensures !Split(a + b).done && Split(a + b).lines == Split(a).lines
    decreases |a|
  {
    var z := NulStops(a);
    SplitContinues(a, b);
    RestHasNul(a);
    NulBlocks(Split(a).rest, b, 0);
    assert Split(a).lines + [] == Split(a).lines;
  }

  lemma {:induction false} RestHasNul(s: seq<byte>)
    requires !HeadHasNoNul(s) && !Split(s).done
    ensures NUL in Split(s).rest && LineEnd(Split(s).rest).None?
    decreases |s|
  {
    var cr := FirstCrlf(s);
    LineEndIs(s, 0);
    if cr.Some? {
      assert s[0..cr.value] == s[..cr.value];
      if NUL !in s[..cr.value] {
        RestHasNul(s[cr.value + 2..]);
      }
    }
  }

  lemma {:induction false} NulBlocks(a: seq<byte>, b: seq<byte>, i: nat)
    requires i <= |a| && NUL in a[i..] && StrStr(a, i).None?
    ensures StrStr(a + b, i).None?
    decreases |a| - i
  {
    assert a[i..] == [a[i]] + a[i + 1..];
    if a[i] != NUL {
      assert CrlfAt(a + b, i) ==> i + 1 < |a| && CrlfAt(a, i) by {
        assert i + 1 < |a|;
      }
      NulBlocks(a, b, i + 1);
    }
  }
}
