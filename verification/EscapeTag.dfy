/** modify_string, for patterns of one character as escape_tag gives it, and escape_tag on
    NUL-terminated strings in memory. */
module EscapeTag {
  import opened Options
  import opened Bytes
  import opened EscapeModel

  /** The array holds this C string. */
  ghost predicate Holds(a: array<byte>, t: seq<byte>)
    reads a
  {
    |t| < a.Length && (forall i :: 0 <= i < |t| ==> a[i] == t[i] && t[i] != NUL) && a[|t|] == NUL
  }

  method StrLen(a: array<byte>, from: nat, ghost t: seq<byte>) returns (n: nat)
    requires Holds(a, t) && from <= |t|
    ensures n == |t| - from
  {
    n := 0;
    while a[from + n] != NUL
      invariant from + n <= |t|
      decreases |t| - n
    {
      n := n + 1;
    }
  }

  /** strstr with a pattern of one character */
  method StrStr(a: array<byte>, from: nat, c: byte, ghost t: seq<byte>) returns (p: Option<nat>)
    requires Holds(a, t) && from <= |t| && c != NUL
    ensures p.Some? ==> from <= p.value < |t| && t[p.value] == c && c !in t[from..p.value]
    ensures p.None? ==> c !in t[from..]
  {
    var i := from;
    while a[i] != NUL
      invariant from <= i <= |t| && c !in t[from..i]
      decreases |t| - i
    {
      if a[i] == c {
        return Some(i);
      }
      i := i + 1;
    }
    assert t[from..i] == t[from..];
    p := None;
  }

  /** strcasestr with a pattern of one character */
  method StrCaseStr(a: array<byte>, from: nat, c: byte, ghost t: seq<byte>) returns (p: Option<nat>)
    requires Holds(a, t) && from <= |t| && c != NUL
    ensures p.Some? ==> from <= p.value < |t| && Matches(t[p.value], c) && Absent(t[from..p.value], c)
    ensures p.None? ==> Absent(t[from..], c)
  {
    var i := from;
    while a[i] != NUL
      invariant from <= i <= |t| && Absent(t[from..i], c)
      decreases |t| - i
    {
      if ToLower(a[i]) == ToLower(c) {
        return Some(i);
      }
      assert t[from..i + 1] == t[from..i] + [t[i]];
      i := i + 1;
    }
    assert t[from..i] == t[from..];
    p := None;
  }

  /** memmove(a + to, a + from, n) */
  method Move(a: array<byte>, to: nat, from: nat, n: nat)
    requires to + n <= a.Length && from + n <= a.Length
    modifies a
    ensures a[..to] == old(a[..to]) && a[to..to + n] == old(a[from..from + n])
  {
    forall k | to <= k < to + n {
      a[k] := a[k - to + from];
    }
  }

  /** memcpy(a + to, s, |s|) */
  method Copy(a: array<byte>, to: nat, s: seq<byte>)
    requires to + |s| <= a.Length
    modifies a
    ensures a[..to] == old(a[..to]) && a[to..to + |s|] == s
    ensures a[to + |s|..] == old(a[to + |s|..])
  {
    forall k | to <= k < to + |s| {
      a[k] := s[k - to];
    }
  }

  /** The memmove and memcpy of modify_string: the character at p gives way to `after`. */
  method ReplaceAt(a: array<byte>, p: nat, after: seq<byte>, ghost t: seq<byte>)
    requires Holds(a, t) && p < |t| && NUL !in after && |t| - 1 + |after| < a.Length
    modifies a
    ensures Holds(a, t[..p] + after + t[p + 1..])
  {
    var n := StrLen(a, p + 1, t);
    var q := p + |after|;
    ghost var tail := t[p + 1..] + [NUL];
    assert a[..p] == t[..p] && a[p + 1..p + 1 + (n + 1)] == tail;
    Move(a, q, p + 1, n + 1);
    assert a[..p] == a[..q][..p] == t[..p];
    assert a[q..][..n + 1] == a[q..q + (n + 1)];
    Copy(a, p, after);
    assert a[q..q + |tail|] == a[q..][..|tail|];
    Spliced(a, p, after, t);
  }

  lemma Spliced(a: array<byte>, p: nat, after: seq<byte>, t: seq<byte>)
    requires p < |t| && NUL !in after && NUL !in t && |t| - 1 + |after| < a.Length
    requires var q, tail := p + |after|, t[p + 1..] + [NUL];
             a[..p] == t[..p] && a[p..q] == after && a[q..q + |tail|] == tail
    ensures Holds(a, t[..p] + after + t[p + 1..])
  {
    var t', q := t[..p] + after + t[p + 1..], p + |after|;
    var tail := t[p + 1..] + [NUL];
    assert a[..|t'| + 1] == a[..p] + a[p..q] + a[q..q + |tail|] == t' + [NUL];
    assert NUL !in t';
    assert forall k :: 0 <= k <= |t'| ==> a[k] == (t' + [NUL])[k];
  }

  /** The loop of modify_string that counts, for the size it asks of realloc. */
  method CountIn(a: array<byte>, c: byte, ghost t: seq<byte>) returns (count: nat)
    requires Holds(a, t) && c != NUL
    ensures count == Count(t, c)
  {
    count := 0;
    var i := 0;
    assert t[0..] == t;
    var p := StrStr(a, i, c, t);
    while p.Some?
      invariant 0 <= i <= |t| && Count(t, c) == count + Count(t[i..], c)
      invariant p.Some? ==> i <= p.value < |t| && t[p.value] == c && c !in t[i..p.value]
      invariant p.None? ==> c !in t[i..]
      decreases |t| - i, p.Some?
    {
      ghost var rest := t[i..];
      assert rest[..p.value - i] == t[i..p.value] && rest[p.value - i + 1..] == t[p.value + 1..];
      CountStep(rest, p.value - i, c);
      count, i := count + 1, p.value + 1;
      p := StrStr(a, i, c, t);
    }
    assert t[i..][..|t| - i] == t[i..];
    CountStep(t[i..], |t| - i, c);
  }

  method Realloc(a: array<byte>, size: nat, ghost t: seq<byte>) returns (r: array<byte>)
    requires Holds(a, t) && |t| < size
    ensures fresh(r) && r.Length == size && Holds(r, t)
  {
    r := new byte[size];
    forall k | 0 <= k < size && k < a.Length {
      r[k] := a[k];
    }
  }

  lemma {:induction false} GrowsOrNot(s: seq<byte>, c: byte, after: seq<byte>)
    ensures after != [] ==> |s| <= |Subst(s, c, after)|
  {
    if s != [] {
      GrowsOrNot(s[1..], c, after);
    }
  }

  /** What one round of the replacing loop does to the text; `rest` is what it has not seen. */
  lemma ReplaceStep(done: seq<byte>, rest: seq<byte>, k: nat, c: byte, after: seq<byte>)
    requires k < |rest| && Matches(rest[k], c) && Absent(rest[..k], c)
    ensures var t, p, done' := done + rest, |done| + k, done + rest[..k] + after;
      && t[..p] + after + t[p + 1..] == done' + rest[k + 1..]
      && done + Subst(rest, c, after) == done' + Subst(rest[k + 1..], c, after)
      && (after != [] ==> |done' + rest[k + 1..]| <= |done + Subst(rest, c, after)|)
  {
    var t, p, more := done + rest, |done| + k, Subst(rest[k + 1..], c, after);
    assert t[..p] == done + rest[..k] && t[p + 1..] == rest[k + 1..];
    SubstStep(rest, k, c, after);
    Assoc(done, rest[..k] + after, more);
    Assoc(done, rest[..k], after);
    GrowsOrNot(rest[k + 1..], c, after);
  }

  /** One round of the replacing loop, over the part of the text from s on. */
  method ReplaceNext(a: array<byte>, s: nat, before: byte, after: seq<byte>,
                     ghost done: seq<byte>, ghost rest: seq<byte>)
    returns (found: bool, next: nat, ghost done': seq<byte>, ghost rest': seq<byte>)
    requires Holds(a, done + rest) && s == |done|
    requires before != NUL && NUL !in after
    requires |done + Subst(rest, before, after)| < a.Length
    modifies a
    ensures Holds(a, done' + rest')
    ensures !found ==> rest' == [] && done' == done + Subst(rest, before, after)
    ensures found ==> next == |done'| && |rest'| < |rest|
    ensures found ==> done' + Subst(rest', before, after) == done + Subst(rest, before, after)
  {
    var p := StrCaseStr(a, s, before, done + rest);
    found, next := p.Some?, 0;
    assert (done + rest)[s..] == rest;
    if found {
      ghost var k := p.value - s;
      assert rest[..k] == (done + rest)[s..p.value];
      ReplaceStep(done, rest, k, before, after);
      ReplaceAt(a, p.value, after, done + rest);
      next := p.value + |after|;
      done', rest' := done + rest[..k] + after, rest[k + 1..];
    } else {
      SubstAbsent(rest, before, after);
      done', rest' := done + rest, [];
      assert done' + rest' == done + rest;
    }
  }

  /** The loop of modify_string that replaces, in place. */
  method ReplaceAll(a: array<byte>, before: byte, after: seq<byte>, ghost t: seq<byte>)
    requires Holds(a, t) && before != NUL && NUL !in after
    requires |Subst(t, before, after)| < a.Length
    modifies a
    ensures Holds(a, Subst(t, before, after))
  {
    var s, on := 0, true;
    ghost var done: seq<byte>, rest := [], t;
    assert done + rest == t;
    while on
      invariant Holds(a, done + rest) && (on ==> s == |done|)
      invariant done + Subst(rest, before, after) == Subst(t, before, after)
      invariant !on ==> rest == []
      decreases on, |rest|
    {
      on, s, done, rest := ReplaceNext(a, s, before, after, done, rest);
    }
    assert done + rest == done;
  }

  /** modify_string with like 0: the string is moved to a block of exactly the final size when it
      may grow, and every `before` in it, in any case, is replaced. A block that is to grow is large
      enough only if `before` does not occur in the other case (EscapeModel.RightSizeIff). */
  method ModifyString(a: array<byte>, before: byte, after: seq<byte>, ghost t: seq<byte>)
    returns (r: array<byte>)
    requires Holds(a, t) && before != NUL && NUL !in after
    requires |after| > 1 ==> OnlyAsGiven(t, before)
    modifies a
    ensures Holds(r, Subst(t, before, after))
    ensures if |after| > 1 then fresh(r) && r.Length == |Subst(t, before, after)| + 1 else r == a
  {
    r := a;
    if |after| > 1 {
      RightSizeIff(t, before, after);
      var count := CountIn(a, before, t);
      var len := StrLen(a, 0, t);
      Grows(|after| - 1, count);
      r := Realloc(a, len + (|after| - 1) * count + 1, t);
    } else {
      SubstLength(t, before, after);
      Shrinks(|after| - 1, CountAnyCase(t, before));
    }
    ReplaceAll(r, before, after, t);
  }

  lemma Grows(a: nat, n: nat)
    ensures a * n >= 0
  {
  }

  lemma Shrinks(a: int, n: nat)
    requires a <= 0
    ensures a * n <= 0
  {
  }

  /** escape_tag: None when there is nothing to escape and no copy is asked for. */
  method Escaped(tag: array<byte>, force: bool, ghost t: seq<byte>) returns (r: array?<byte>)
    requires Holds(tag, t)
    ensures r == null <==> !NeedsCopy(t) && !force
    ensures r != null ==> fresh(r) && Holds(r, Escape(t)) && r.Length == |Escape(t)| + 1
  {
    r := null;
    var amp := StrStr(tag, 0, AMP, t);
    var lt := StrStr(tag, 0, LT, t);
    var gt := StrStr(tag, 0, GT, t);
    var quote := StrStr(tag, 0, QUOTE, t);
    assert t[0..] == t;
    var len := StrLen(tag, 0, t);
    if amp.Some? || lt.Some? || gt.Some? || quote.Some? {
      PassesAreOne(t);
      var copy := Realloc(tag, len + 1, t);
      copy := ModifyString(copy, AMP, AMP_TEXT, t);
      ghost var t1 := Subst(t, AMP, AMP_TEXT);
      copy := ModifyString(copy, LT, LT_TEXT, t1);
      r := ModifyString(copy, GT, GT_TEXT, Subst(t1, LT, LT_TEXT));
    } else if force {
      EscapeIsSafe(t);
      r := Realloc(tag, len + 1, t);
    }
  }
}
