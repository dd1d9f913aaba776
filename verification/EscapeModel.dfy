/** The escaping of tags in utils.c on texts without NULs: one substitution after the other, and
    all at once.  Bytes are given by their ASCII codes. */
module EscapeModel {
  import opened Options
  import opened Bytes

  const AMP: byte := 38
  const LT: byte := 60
  const GT: byte := 62
  const QUOTE: byte := 34

  const AMP_TEXT: seq<byte> := [38, 97, 109, 112, 59]   // &amp;
  const LT_TEXT: seq<byte> := [38, 108, 116, 59]        // &lt;
  const GT_TEXT: seq<byte> := [38, 103, 116, 59]        // &gt;

  function ToLower(c: byte): byte {
    if 65 <= c <= 90 then c + 32 else c
  }

  /** The same character, in any case. */
  predicate Matches(x: byte, c: byte) {
    ToLower(x) == ToLower(c)
  }

  const UPPER := "ABCDEFGHIJKLMNOPQRSTUVWXYZ"
  const LOWER := "abcdefghijklmnopqrstuvwxyz"

  /** The letter number k, in the one or the other case. */
  predicate IsLetter(k: nat, upper: byte, lower: byte)
    requires k < 26
  {
    UPPER[k] as int == upper && LOWER[k] as int == lower
  }

  lemma LetterIs(c: byte)
    ensures 65 <= c <= 90 ==> IsLetter(c - 65, c, c + 32)
  {
  }

  lemma LetterValue(k: nat)
    requires k < 26
    ensures UPPER[k] as int == 65 + k && LOWER[k] as int == 97 + k
  {
  }

  /** Two characters match if and only if they are the same, or one letter in its two cases. */
  lemma MatchesIff(x: byte, c: byte)
    ensures Matches(x, c) <==> x == c || exists k :: 0 <= k < 26 && (IsLetter(k, x, c) || IsLetter(k, c, x))
  {
    LetterIs(x);
    LetterIs(c);
    if k :| 0 <= k < 26 && (IsLetter(k, x, c) || IsLetter(k, c, x)) {
      LetterValue(k);
    }
  }

  predicate Absent(s: seq<byte>, c: byte) {
    forall k :: 0 <= k < |s| ==> !Matches(s[k], c)
  }

  /** Every `c` of the text, in any case, replaced by `after`. */
  function Subst(s: seq<byte>, c: byte, after: seq<byte>): seq<byte> {
    if s == [] then []
    else (if Matches(s[0], c) then after else [s[0]]) + Subst(s[1..], c, after)
  }

  function EscapeByte(c: byte): seq<byte> {
    if c == AMP then AMP_TEXT else if c == LT then LT_TEXT else if c == GT then GT_TEXT else [c]
  }

  /** All three characters replaced in one pass. */
  function Escape(s: seq<byte>): seq<byte> {
    if s == [] then [] else EscapeByte(s[0]) + Escape(s[1..])
  }

  /** The three passes of escape_tag. */
  function ThreePasses(s: seq<byte>): seq<byte> {
    Subst(Subst(Subst(s, AMP, AMP_TEXT), LT, LT_TEXT), GT, GT_TEXT)
  }

  /** escape_tag has a new string to make. */
  predicate NeedsCopy(s: seq<byte>) {
    AMP in s || LT in s || GT in s || QUOTE in s
  }

  function Count(s: seq<byte>, c: byte): nat {
    if s == [] then 0 else (if s[0] == c then 1 else 0) + Count(s[1..], c)
  }

  function CountAnyCase(s: seq<byte>, c: byte): nat {
    if s == [] then 0 else (if Matches(s[0], c) then 1 else 0) + CountAnyCase(s[1..], c)
  }

  lemma {:induction false} SubstLength(s: seq<byte>, c: byte, after: seq<byte>)
    ensures |Subst(s, c, after)| == |s| + (|after| - 1) * CountAnyCase(s, c)
  {
    if s != [] {
      SubstLength(s[1..], c, after);
      if Matches(s[0], c) {
        Distribute(|after| - 1, CountAnyCase(s[1..], c));
      }
    }
  }

  lemma Distribute(a: int, n: int)
    ensures a * (n + 1) == a * n + a
  {
  }

  /** `c` does not occur in the other case. */
  predicate OnlyAsGiven(s: seq<byte>, c: byte) {
    forall k :: 0 <= k < |s| && Matches(s[k], c) ==> s[k] == c
  }

  lemma {:induction false} CountsAgree(s: seq<byte>, c: byte)
    ensures Count(s, c) <= CountAnyCase(s, c)
    ensures Count(s, c) == CountAnyCase(s, c) <==> OnlyAsGiven(s, c)
  {
    if s != [] {
      CountsAgree(s[1..], c);
      if OnlyAsGiven(s[1..], c) && (Matches(s[0], c) ==> s[0] == c) {
        assert forall k :: 0 < k < |s| ==> s[k] == s[1..][k - 1];
      }
    }
  }

  lemma Larger(a: int, m: nat, n: nat)
    requires a > 0 && m < n
    ensures a * m < a * n
  {
  }

  /** The length that modify_string asks of realloc, and the length that it writes, are the same if
      and only if the pattern does not occur in the other case; otherwise what it asks for is too
      small. */
  lemma {:induction false} RightSizeIff(s: seq<byte>, c: byte, after: seq<byte>)
    requires |after| > 1
    ensures |s| + (|after| - 1) * Count(s, c) == |Subst(s, c, after)| <==> OnlyAsGiven(s, c)
    ensures |s| + (|after| - 1) * Count(s, c) <= |Subst(s, c, after)|
  {
    SubstLength(s, c, after);
    CountsAgree(s, c);
    if Count(s, c) < CountAnyCase(s, c) {
      Larger(|after| - 1, Count(s, c), CountAnyCase(s, c));
    }
  }

  /** "aA" with "a" to be replaced by "bb": three bytes and a NUL are asked for, four are written. */
  lemma ExampleTooSmall()
    ensures |[97, 65]| + (2 - 1) * Count([97, 65], 97) == 3
    ensures Subst([97, 65], 97, [98, 98]) == [98, 98, 98, 98]
  {
    var s: seq<byte> := [97, 65];
    assert s[1..] == [65] && s[1..][1..] == [];
    assert Subst([65], 97, [98, 98]) == [98, 98] + Subst([], 97, [98, 98]);
  }

  lemma {:induction false} SubstConcat(a: seq<byte>, b: seq<byte>, c: byte, after: seq<byte>)
    ensures Subst(a + b, c, after) == Subst(a, c, after) + Subst(b, c, after)
  {
    if a == [] {
      assert a + b == b;
    } else {
      var first := if Matches(a[0], c) then after else [a[0]];
      assert (a + b)[0] == a[0] && (a + b)[1..] == a[1..] + b;
      SubstConcat(a[1..], b, c, after);
      Assoc(first, Subst(a[1..], c, after), Subst(b, c, after));
    }
  }

  lemma {:induction false} SubstAbsent(s: seq<byte>, c: byte, after: seq<byte>)
    requires Absent(s, c)
    ensures Subst(s, c, after) == s
  {
    if s != [] {
      SubstAbsent(s[1..], c, after);
    }
  }

  lemma SubstOne(x: byte, c: byte, after: seq<byte>)
    ensures Subst([x], c, after) == if Matches(x, c) then after else [x]
  {
    assert [x][1..] == [];
  }

  lemma OneAmp()
    ensures ThreePasses([AMP]) == AMP_TEXT
  {
    SubstOne(AMP, AMP, AMP_TEXT);
    SubstAbsent(AMP_TEXT, LT, LT_TEXT);
    SubstAbsent(AMP_TEXT, GT, GT_TEXT);
  }

  lemma OneByte(x: byte)
    ensures ThreePasses([x]) == EscapeByte(x)
  {
    if x == AMP {
      OneAmp();
    } else {
      SubstOne(x, AMP, AMP_TEXT);
      SubstOne(x, LT, LT_TEXT);
      if x == LT {
        SubstAbsent(LT_TEXT, GT, GT_TEXT);
      } else {
        SubstOne(x, GT, GT_TEXT);
      }
    }
  }

  /** The three characters that are escaped, as they are written. */
  lemma EscapedOne(c: byte)
    ensures Escape([c]) ==
      if c == '&' as int then ['&' as int, 'a' as int, 'm' as int, 'p' as int, ';' as int]
      else if c == '<' as int then ['&' as int, 'l' as int, 't' as int, ';' as int]
      else if c == '>' as int then ['&' as int, 'g' as int, 't' as int, ';' as int]
      else [c]
  {
    assert [c][1..] == [] && EscapeByte(c) + [] == EscapeByte(c);
  }

  /** What one pass puts in is left alone by the next ones: the three passes are one. */
  lemma {:induction false} PassesAreOne(s: seq<byte>)
    ensures ThreePasses(s) == Escape(s)
  {
    if s != [] {
      var x, rest := [s[0]], s[1..];
      assert s == x + rest;
      PassesAreOne(rest);
      OneByte(s[0]);
      SubstConcat(x, rest, AMP, AMP_TEXT);
      var x1, rest1 := Subst(x, AMP, AMP_TEXT), Subst(rest, AMP, AMP_TEXT);
      SubstConcat(x1, rest1, LT, LT_TEXT);
      SubstConcat(Subst(x1, LT, LT_TEXT), Subst(rest1, LT, LT_TEXT), GT, GT_TEXT);
    }
  }

  /** The character an entity at index i stands for, and the entity's length. */
  function EntityAt(e: seq<byte>, i: nat): Option<(byte, nat)>
    requires i < |e|
  {
    if e[i] != AMP then None
    else if i + 4 < |e| && e[i + 1] == 97 && e[i + 2] == 109 && e[i + 3] == 112 && e[i + 4] == 59 then
      Some((AMP, 5))
    else if i + 3 < |e| && e[i + 1] == 108 && e[i + 2] == 116 && e[i + 3] == 59 then Some((LT, 4))
    else if i + 3 < |e| && e[i + 1] == 103 && e[i + 2] == 116 && e[i + 3] == 59 then Some((GT, 4))
    else None
  }

  /** A reader of the three entities, from index i on. */
  function UnescapeFrom(e: seq<byte>, i: nat): seq<byte>
    decreases |e| - i
  {
    if i >= |e| then []
    else
      var entity := EntityAt(e, i);
      if entity.None? then [e[i]] + UnescapeFrom(e, i + 1)
      else [entity.value.0] + UnescapeFrom(e, i + entity.value.1)
  }

  lemma UnescapesByte(e: seq<byte>, i: nat, c: byte)
    requires IsAt(e, i, EscapeByte(c))
    ensures UnescapeFrom(e, i) == [c] + UnescapeFrom(e, i + |EscapeByte(c)|)
  {
    var t := EscapeByte(c);
    assert e[i] == t[0];
    if |t| > 1 {
      assert e[i + 1] == t[1] && e[i + 2] == t[2] && e[i + 3] == t[3];
      assert c == AMP ==> e[i + 4] == t[4];
    }
  }

  lemma {:induction false} UnescapesRest(e: seq<byte>, i: nat, s: seq<byte>)
    requires IsAt(e, i, Escape(s)) && i + |Escape(s)| == |e|
    ensures UnescapeFrom(e, i) == s
    decreases |s|
  {
    if s != [] {
      IsAtSplit(e, i, EscapeByte(s[0]), Escape(s[1..]));
      UnescapesByte(e, i, s[0]);
      UnescapesRest(e, i + |EscapeByte(s[0])|, s[1..]);
    }
  }

  /** Every text, also one that already holds entities, is read back from its escaped form. */
  lemma UnescapeEscape(s: seq<byte>)
    ensures UnescapeFrom(Escape(s), 0) == s
  {
    UnescapesRest(Escape(s), 0, s);
  }

  /** The escaped text has no bracket left and is unchanged only when nothing needed escaping. */
  lemma {:induction false} EscapeIsSafe(s: seq<byte>)
    ensures LT !in Escape(s) && GT !in Escape(s)
    ensures Escape(s) == s <==> AMP !in s && LT !in s && GT !in s
    ensures |s| <= |Escape(s)|
  {
    if s != [] {
      EscapeIsSafe(s[1..]);
      assert s == [s[0]] + s[1..];
      assert LT !in EscapeByte(s[0]) && GT !in EscapeByte(s[0]);
    }
  }

  /** A new string is made if and only if escaping changes the text, or there is a quotation mark in
      it, which is not escaped. */
  lemma NeedsCopyIff(s: seq<byte>)
    ensures NeedsCopy(s) <==> Escape(s) != s || '"' as int in s
  {
    EscapeIsSafe(s);
  }

  /** Up to and over the first `c`. */
  lemma SubstStep(s: seq<byte>, p: nat, c: byte, after: seq<byte>)
    requires p < |s| && Matches(s[p], c) && Absent(s[..p], c)
    ensures Subst(s, c, after) == s[..p] + after + Subst(s[p + 1..], c, after)
  {
    SubstAbsent(s[..p], c, after);
    SubstConcat(s[..p], s[p..], c, after);
    assert s == s[..p] + s[p..] && s[p..][1..] == s[p + 1..];
    Assoc(s[..p], after, Subst(s[p + 1..], c, after));
  }

  lemma {:induction false} CountStep(s: seq<byte>, p: nat, c: byte)
    requires p <= |s| && c !in s[..p]
    ensures Count(s, c) == Count(s[p..], c)
    ensures p < |s| && s[p] == c ==> Count(s, c) == 1 + Count(s[p + 1..], c)
  {
    if p > 0 {
      assert s[..p][0] == s[0] && s[1..][..p - 1] == s[..p][1..];
      CountStep(s[1..], p - 1, c);
      assert s[1..][p - 1..] == s[p..];
    } else {
      assert s[0..] == s;
    }
    if p < |s| {
      assert s[p..][1..] == s[p + 1..];
    }
  }
}
