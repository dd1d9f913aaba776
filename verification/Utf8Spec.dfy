/** The UTF-8 form of section 2 of RFC 2279 (one to six bytes, 31 bits), and what the reader of
    utf8.c makes of arbitrary bytes. */
module Utf8Spec {
  import opened Bytes

  // ----- decoding -----

  /** umap: the length a lead byte announces, 0 for a byte that leads nothing. */
  function Umap(b: byte): (n: nat)
    ensures n <= 6
  {
    if b < 0x80 then 1
    else if b < 0xc0 then 0
    else if b < 0xe0 then 2
    else if b < 0xf0 then 3
    else if b < 0xf8 then 4
    else if b < 0xfc then 5
    else if b < 0xfe then 6
    else 0
  }

  /** The weight of the bits that `0xff >> n` keeps. */
  function LeadModulus(n: nat): nat
    requires 1 <= n <= 6
  {
    [128, 64, 32, 16, 8, 4][n - 1]
  }

  /** The value gathered from the lead byte at `t` and the `k - 1` bytes behind it. */
  function Gather(s: seq<byte>, t: nat, k: nat): nat
    requires 1 <= k && t + k <= |s| && 1 <= Umap(s[t])
    decreases k
  {
    if k == 1 then s[t] % LeadModulus(Umap(s[t]))
    else Gather(s, t, k - 1) * 64 + s[t + k - 1] % 64
  }

  predicate CString(s: seq<byte>) {
    |s| > 0 && s[|s| - 1] == NUL
  }

  /** The first position from `i` on whose byte can lead a character. */
  function NextLead(s: seq<byte>, i: nat): (j: nat)
    requires CString(s) && i < |s|
    ensures i <= j < |s| && Umap(s[j]) != 0
    decreases |s| - i
  {
    if Umap(s[i]) != 0 then i else NextLead(s, i + 1)
  }

  /** `next` is where reading stops; `illegal` bytes were skipped in front of the character. */
  datatype Got = Got(uc: nat, next: nat, illegal: nat)

  /** The character read when a lead byte stands at `t`: an unfinished one is skipped. */
  function GetAt(s: seq<byte>, t: nat): (g: Got)
    requires CString(s) && t < |s| && Umap(s[t]) != 0
    ensures t < g.next <= |s|
    decreases |s| - t
  {
    var n := Umap(s[t]);
    if n == 1 then Got(Gather(s, t, 1), t + 1, 0)
    else
      var lead := NextLead(s, t + 1);
      if lead >= t + n then Got(Gather(s, t, n), t + n, 0)
      else
        var g := GetAt(s, lead);
        g.(illegal := g.illegal + (lead - t))
  }

  /** getu8c */
  function Get(s: seq<byte>, i: nat): Got
    requires CString(s) && i < |s|
  {
    var t := NextLead(s, i);
    var g := GetAt(s, t);
    g.(illegal := g.illegal + (t - i))
  }

  /** The characters of the string up to the first that decodes to zero, and all skipped bytes. */
  datatype Decoded = Decoded(chars: seq<nat>, illegal: nat)

  function Decode(s: seq<byte>, i: nat): Decoded
    requires CString(s) && i <= |s|
    decreases |s| - i
  {
    if i == |s| then Decoded([], 0)
    else
      var g := Get(s, i);
      if g.uc == 0 then Decoded([], g.illegal)
      else
        var rest := Decode(s, g.next);
        Decoded([g.uc] + rest.chars, g.illegal + rest.illegal)
  }

  /** A character found behind an unfinished one stands where the skipped bytes end. */
  predicate StandsAt(s: seq<byte>, t: nat, g: Got) {
    && t < g.next <= |s| && 1 <= Umap(s[t]) == g.next - t
    && g.uc == Gather(s, t, g.next - t)
  }

  lemma {:induction false} GetAtAccounts(s: seq<byte>, t: nat)
    requires CString(s) && t < |s| && Umap(s[t]) != 0
    ensures StandsAt(s, t + GetAt(s, t).illegal, GetAt(s, t))
    decreases |s| - t
  {
    var n := Umap(s[t]);
    if n > 1 && NextLead(s, t + 1) < t + n {
      GetAtAccounts(s, NextLead(s, t + 1));
    }
  }

  /** Each read consumes exactly the skipped bytes and the announced length of the character,
      which is gathered from those bytes and fits 31 bits. */
  lemma GetAccounts(s: seq<byte>, i: nat)
    requires CString(s) && i < |s|
    ensures var g := Get(s, i);
            && i + g.illegal < g.next <= |s|
            && g.next == i + g.illegal + Umap(s[i + g.illegal])
            && g.uc == Gather(s, i + g.illegal, Umap(s[i + g.illegal]))
            && g.uc < 0x8000_0000
  {
    var g := Get(s, i);
    GetAtAccounts(s, NextLead(s, i));
    GatherBelow(s, i + g.illegal, Umap(s[i + g.illegal]));
    BoundIsCapacity(Umap(s[i + g.illegal]));
  }

  /** The bits that a form of `n` bytes can carry. */
  function Capacity(n: nat): nat
    requires 1 <= n <= 6
  {
    [0x80, 0x800, 0x1_0000, 0x20_0000, 0x400_0000, 0x8000_0000][n - 1]
  }

  /** One more than the largest value gathered from `k` bytes of a form of `n`. */
  function Bound(n: nat, k: nat): nat
    requires 1 <= n <= 6 && 1 <= k
  {
    if k == 1 then [128, 32, 16, 8, 4, 2][n - 1] else 64 * Bound(n, k - 1)
  }

  lemma {:induction false} GatherBelow(s: seq<byte>, t: nat, k: nat)
    requires 1 <= k && t + k <= |s| && Umap(s[t]) >= 1
    ensures Gather(s, t, k) < Bound(Umap(s[t]), k)
    decreases k
  {
    if k > 1 {
      GatherBelow(s, t, k - 1);
    }
  }

  lemma BoundIsCapacity(n: nat)
    requires 1 <= n <= 6
    ensures Bound(n, n) == Capacity(n)
  {
    var b := Bound(n, 1);
    assert n >= 2 ==> Bound(n, 2) == 64 * b;
    assert n >= 3 ==> Bound(n, 3) == 64 * Bound(n, 2);
    assert n >= 4 ==> Bound(n, 4) == 64 * Bound(n, 3);
    assert n >= 5 ==> Bound(n, 5) == 64 * Bound(n, 4);
  }

  // ----- encoding -----

  /** The number of bytes of the form of `uc`. */
  function FormLength(uc: nat): (n: nat)
    ensures 1 <= n <= 6
  {
    if uc < 0x80 then 1
    else if uc < 0x800 then 2
    else if uc < 0x1_0000 then 3
    else if uc < 0x20_0000 then 4
    else if uc < 0x400_0000 then 5
    else 6
  }

  /** The low `6 * k` bits as `k` continuation bytes, the highest first. */
  function Continuations(uc: nat, k: nat): (r: seq<byte>)
    ensures |r| == k && forall i :: 0 <= i < k ==> 0x80 <= r[i] < 0xc0
  {
    if k == 0 then [] else Continuations(uc / 64, k - 1) + [0x80 + uc % 64]
  }

  function ShiftRight(uc: nat, k: nat): nat {
    if k == 0 then uc else ShiftRight(uc / 64, k - 1)
  }

  /** `0xff << (8 - n)` as a byte. */
  function LeadMark(n: nat): nat
    requires 1 <= n <= 6
  {
    [0, 0xc0, 0xe0, 0xf0, 0xf8, 0xfc][n - 1]
  }

  lemma LeadFits(uc: nat)
    requires uc < 0x8000_0000
    ensures LeadMark(FormLength(uc)) + ShiftRight(uc, FormLength(uc) - 1) < 256
    ensures Umap(LeadMark(FormLength(uc)) + ShiftRight(uc, FormLength(uc) - 1)) == FormLength(uc)
    ensures (LeadMark(FormLength(uc)) + ShiftRight(uc, FormLength(uc) - 1)) % LeadModulus(FormLength(uc)) ==
            ShiftRight(uc, FormLength(uc) - 1)
  {
    var n := FormLength(uc);
    if n >= 2 { assert ShiftRight(uc, n - 1) == ShiftRight(uc / 64, n - 2); }
    if n >= 3 { assert ShiftRight(uc / 64, n - 2) == ShiftRight(uc / 64 / 64, n - 3); }
    if n >= 4 { assert ShiftRight(uc / 64 / 64, n - 3) == ShiftRight(uc / 64 / 64 / 64, n - 4); }
    if n >= 5 { assert ShiftRight(uc / 64 / 64 / 64, n - 4) == ShiftRight(uc / 64 / 64 / 64 / 64, n - 5); }
    if n == 6 { assert ShiftRight(uc / 64 / 64 / 64 / 64, 1) == uc / 64 / 64 / 64 / 64 / 64; }
  }

  /** The UTF-8 form of a character of up to 31 bits. */
  function Form(uc: nat): (r: seq<byte>)
    requires uc < 0x8000_0000
    ensures |r| == FormLength(uc) && Umap(r[0]) == |r|
  {
    LeadFits(uc);
    var n := FormLength(uc);
    [LeadMark(n) + ShiftRight(uc, n - 1)] + Continuations(uc, n - 1)
  }

  /** The value of the bits of a lead byte and of groups of six bits behind them. */
  function Grouped(lead: nat, groups: seq<nat>): nat {
    if groups == [] then lead
    else 64 * Grouped(lead, groups[..|groups| - 1]) + groups[|groups| - 1]
  }

  lemma {:induction false} GroupsAreContinuations(lead: nat, groups: seq<nat>)
    requires forall k :: 0 <= k < |groups| ==> groups[k] < 64
    ensures ShiftRight(Grouped(lead, groups), |groups|) == lead
    ensures forall k :: 0 <= k < |groups| ==> Continuations(Grouped(lead, groups), |groups|)[k] == 0x80 + groups[k]
    decreases |groups|
  {
    if groups != [] {
      var front := groups[..|groups| - 1];
      GroupsAreContinuations(lead, front);
      assert Grouped(lead, groups) / 64 == Grouped(lead, front) && Grouped(lead, groups) % 64 == groups[|groups| - 1];
    }
  }

  /** The table of section 2 of RFC 2279: characters below 0x80 are their own form; from there on the
      form is a lead byte 110xxxxx to 1111110x and one to five bytes 10xxxxxx with the bits of the
      character, and its length is the least that the character fits. */
  lemma FormIsTable(lead: nat, groups: seq<nat>)
    requires 1 <= |groups| <= 5 && forall k :: 0 <= k < |groups| ==> groups[k] < 64
    requires var n := |groups| - 1;
      [0x80, 0x800, 0x1_0000, 0x20_0000, 0x400_0000][n] <= Grouped(lead, groups)
        < [0x800, 0x1_0000, 0x20_0000, 0x400_0000, 0x8000_0000][n]
    ensures var form := Form(Grouped(lead, groups));
      && |form| == 1 + |groups|
      && form[0] == [0xc0, 0xe0, 0xf0, 0xf8, 0xfc][|groups| - 1] + lead
      && forall k :: 0 <= k < |groups| ==> form[1 + k] == 0x80 + groups[k]
  {
    GroupsAreContinuations(lead, groups);
    assert FormLength(Grouped(lead, groups)) == 1 + |groups|;
  }

  lemma FormOfSeven(uc: nat)
    requires uc < 0x80
    ensures Form(uc) == [uc]
  {
    assert Continuations(uc, 0) == [];
  }

  lemma {:induction false} ContinuationsAt(uc: nat, k: nat, i: nat)
    requires i < k
    ensures Continuations(uc, k)[i] == 0x80 + ShiftRight(uc, k - 1 - i) % 64
  {
    if i < k - 1 {
      ContinuationsAt(uc / 64, k - 1, i);
    }
  }

  lemma {:induction false} ShiftOnce(uc: nat, k: nat)
    ensures ShiftRight(uc, k + 1) == ShiftRight(uc, k) / 64
  {
    if k > 0 {
      ShiftOnce(uc / 64, k - 1);
    }
  }

  /** Gathering the first `k` bytes of a form gives the character's high bits. */
  lemma {:induction false} GatherForm(s: seq<byte>, t: nat, uc: nat, k: nat)
    requires uc < 0x8000_0000 && 1 <= k <= FormLength(uc) && t + FormLength(uc) <= |s|
    requires forall j :: 0 <= j < FormLength(uc) ==> s[t + j] == Form(uc)[j]
    ensures Umap(s[t]) == FormLength(uc)
    ensures Gather(s, t, k) == ShiftRight(uc, FormLength(uc) - k)
    decreases k
  {
    var n := FormLength(uc);
    assert s[t + 0] == Form(uc)[0];
    if k == 1 {
      LeadFits(uc);
    } else {
      GatherForm(s, t, uc, k - 1);
      assert s[t + (k - 1)] == Form(uc)[k - 1];
      FormByte(uc, k - 1);
      ShiftOnce(uc, n - k);
    }
  }

  lemma FormByte(uc: nat, i: nat)
    requires uc < 0x8000_0000 && 1 <= i < FormLength(uc)
    ensures Form(uc)[i] % 64 == ShiftRight(uc, FormLength(uc) - 1 - i) % 64
  {
    ContinuationsAt(uc, FormLength(uc) - 1, i - 1);
  }

  lemma {:induction false} NextLeadIs(s: seq<byte>, i: nat, j: nat)
    requires CString(s) && i <= j < |s|
    requires forall k :: i <= k < j ==> Umap(s[k]) == 0
    ensures if Umap(s[j]) != 0 then NextLead(s, i) == j else NextLead(s, i) > j
    decreases j - i
  {
    if i < j {
      NextLeadIs(s, i + 1, j);
    }
  }

  /** A form is read back whole, with nothing skipped. */
  lemma GetForm(s: seq<byte>, t: nat, uc: nat)
    requires CString(s) && uc < 0x8000_0000 && IsAt(s, t, Form(uc))
    ensures Umap(s[t]) != 0 && GetAt(s, t) == Got(uc, t + FormLength(uc), 0)
  {
    var n := FormLength(uc);
    GatherForm(s, t, uc, n);
    if n > 1 {
      forall k | t + 1 <= k < t + n ensures Umap(s[k]) == 0 {
        assert s[t + (k - t)] == Form(uc)[k - t];
      }
      NextLeadIs(s, t + 1, t + n - 1);
    }
  }

  // ----- skipping -----

  /** A lead byte with fewer bytes behind it than it announces. */
  predicate Unfinished(b: seq<byte>) {
    1 <= |b| < Umap(b[0]) && forall j :: 1 <= j < |b| ==> Umap(b[j]) == 0
  }

  predicate Stray(b: seq<byte>) {
    forall j :: 0 <= j < |b| ==> Umap(b[j]) == 0
  }

  /** Bytes a reader skips: stray ones, then unfinished characters in a row. */
  datatype Junk = Junk(stray: seq<byte>, groups: Groups)
  datatype Groups = NoGroup | Group(bytes: seq<byte>, rest: Groups)

  predicate ValidGroups(g: Groups) {
    match g case NoGroup => true case Group(b, rest) => Unfinished(b) && ValidGroups(rest)
  }

  function GroupBytes(g: Groups): seq<byte> {
    match g case NoGroup => [] case Group(b, rest) => b + GroupBytes(rest)
  }

  predicate ValidJunk(j: Junk) {
    Stray(j.stray) && ValidGroups(j.groups)
  }

  function JunkBytes(j: Junk): seq<byte> {
    j.stray + GroupBytes(j.groups)
  }

  /** Every proper prefix of a form is unfinished. */
  lemma PrefixIsUnfinished(uc: nat, k: nat)
    requires uc < 0x8000_0000 && 1 <= k < FormLength(uc)
    ensures Unfinished(Form(uc)[..k])
  {
    var f := Form(uc);
    assert forall j :: 1 <= j < k ==> 0x80 <= f[j] < 0xc0;
  }

  lemma UnfinishedIsSkipped(s: seq<byte>, t: nat, b: seq<byte>)
    requires CString(s) && IsAt(s, t, b) && Unfinished(b)
    requires t + |b| < |s| && Umap(s[t + |b|]) != 0
    ensures Umap(s[t]) != 0
    ensures GetAt(s, t) == GetAt(s, t + |b|).(illegal := GetAt(s, t + |b|).illegal + |b|)
  {
    assert s[t + 0] == b[0];
    forall j | t + 1 <= j < t + |b| ensures Umap(s[j]) == 0 {
      assert s[t + (j - t)] == b[j - t];
    }
    NextLeadIs(s, t + 1, t + |b|);
  }

  lemma {:induction false} SkipGroups(s: seq<byte>, t: nat, g: Groups, uc: nat)
    requires CString(s) && uc < 0x8000_0000 && ValidGroups(g)
    requires IsAt(s, t, GroupBytes(g)) && IsAt(s, t + |GroupBytes(g)|, Form(uc))
    ensures Umap(s[t]) != 0
    ensures GetAt(s, t) == Got(uc, t + |GroupBytes(g)| + FormLength(uc), |GroupBytes(g)|)
    decreases g
  {
    match g
    case NoGroup =>
      GetForm(s, t, uc);
    case Group(b, rest) =>
      IsAtSplit(s, t, b, GroupBytes(rest));
      SkipGroups(s, t + |b|, rest, uc);
      UnfinishedIsSkipped(s, t, b);
  }

  lemma StrayIsSkipped(s: seq<byte>, i: nat, stray: seq<byte>)
    requires CString(s) && IsAt(s, i, stray) && Stray(stray)
    requires i + |stray| < |s| && Umap(s[i + |stray|]) != 0
    ensures NextLead(s, i) == i + |stray|
  {
    forall k | i <= k < i + |stray| ensures Umap(s[k]) == 0 {
      assert s[i + (k - i)] == stray[k - i];
    }
    NextLeadIs(s, i, i + |stray|);
  }

  /** Junk in front of a character, or of the final NUL, is skipped and counted, byte for byte. */
  lemma SkipJunk(s: seq<byte>, i: nat, j: Junk, uc: nat)
    requires CString(s) && uc < 0x8000_0000 && ValidJunk(j)
    requires IsAt(s, i, JunkBytes(j)) && IsAt(s, i + |JunkBytes(j)|, Form(uc))
    ensures i < |s| && Get(s, i) == Got(uc, i + |JunkBytes(j)| + FormLength(uc), |JunkBytes(j)|)
  {
    IsAtSplit(s, i, j.stray, GroupBytes(j.groups));
    SkipGroups(s, i + |j.stray|, j.groups, uc);
    StrayIsSkipped(s, i, j.stray);
  }

  // ----- whole strings -----

  /** Characters, each behind some junk, and junk behind the last. */
  datatype Text = End(junk: Junk) | Char(junk: Junk, uc: nat, rest: Text)

  predicate Valid(text: Text) {
    match text
    case End(junk) => ValidJunk(junk)
    case Char(junk, uc, rest) => ValidJunk(junk) && 0 < uc < 0x8000_0000 && Valid(rest)
  }

  function Written(text: Text): seq<byte>
    requires Valid(text)
  {
    match text
    case End(junk) => JunkBytes(junk) + Form(0)
    case Char(junk, uc, rest) => (JunkBytes(junk) + Form(uc)) + Written(rest)
  }

  function Chars(text: Text): seq<nat> {
    match text case End(_) => [] case Char(_, uc, rest) => [uc] + Chars(rest)
  }

  function JunkCount(text: Text): nat {
    match text
    case End(junk) => |JunkBytes(junk)|
    case Char(junk, _, rest) => |JunkBytes(junk)| + JunkCount(rest)
  }

  predicate OneAt(s: seq<byte>, i: nat, junk: Junk, uc: nat)
    requires uc < 0x8000_0000
  {
    ValidJunk(junk) && IsAt(s, i, JunkBytes(junk)) && IsAt(s, i + |JunkBytes(junk)|, Form(uc))
  }

  function LengthOf(junk: Junk, uc: nat): nat {
    |JunkBytes(junk)| + FormLength(uc)
  }

  /** The pieces of the text stand in `s` one behind the other. */
  predicate TextAt(s: seq<byte>, i: nat, text: Text)
    requires Valid(text)
    decreases text
  {
    match text
    case End(junk) => OneAt(s, i, junk, 0)
    case Char(junk, uc, rest) => OneAt(s, i, junk, uc) && TextAt(s, i + LengthOf(junk, uc), rest)
  }

  lemma {:induction false} WrittenAt(s: seq<byte>, i: nat, text: Text)
    requires Valid(text) && IsAt(s, i, Written(text))
    ensures TextAt(s, i, text)
    decreases text
  {
    match text
    case End(junk) =>
      IsAtSplit(s, i, JunkBytes(junk), Form(0));
    case Char(junk, uc, rest) =>
      IsAtSplit(s, i, JunkBytes(junk) + Form(uc), Written(rest));
      IsAtSplit(s, i, JunkBytes(junk), Form(uc));
      WrittenAt(s, i + LengthOf(junk, uc), rest);
  }

  /** Reading on behind some junk and one character. */
  lemma DecodeOne(s: seq<byte>, i: nat, junk: Junk, uc: nat)
    requires CString(s) && uc < 0x8000_0000 && OneAt(s, i, junk, uc)
    ensures var next := i + LengthOf(junk, uc);
            && next <= |s|
            && (uc == 0 ==> Decode(s, i) == Decoded([], |JunkBytes(junk)|))
            && (uc != 0 ==> Decode(s, i) == Decoded([uc] + Decode(s, next).chars,
                                                    |JunkBytes(junk)| + Decode(s, next).illegal))
  {
    SkipJunk(s, i, junk, uc);
  }

  lemma DecodeEnd(s: seq<byte>, i: nat, text: Text)
    requires CString(s) && text.End? && Valid(text) && TextAt(s, i, text) && i <= |s|
    ensures Decode(s, i) == Decoded(Chars(text), JunkCount(text))
  {
    DecodeOne(s, i, text.junk, 0);
  }

  lemma DecodeChar(s: seq<byte>, i: nat, text: Text, rest: Decoded)
    requires CString(s) && text.Char? && Valid(text) && OneAt(s, i, text.junk, text.uc) && i <= |s|
    requires i + LengthOf(text.junk, text.uc) <= |s| ==> Decode(s, i + LengthOf(text.junk, text.uc)) == rest
    ensures Decode(s, i) == Decoded([text.uc] + rest.chars, |JunkBytes(text.junk)| + rest.illegal)
  {
    DecodeOne(s, i, text.junk, text.uc);
  }

  lemma {:induction false} DecodeText(s: seq<byte>, i: nat, text: Text)
    requires CString(s) && Valid(text) && TextAt(s, i, text) && i <= |s|
    ensures Decode(s, i) == Decoded(Chars(text), JunkCount(text))
    decreases text
  {
    if text.End? {
      DecodeEnd(s, i, text);
    } else {
      var next := i + LengthOf(text.junk, text.uc);
      if next <= |s| {
        DecodeText(s, next, text.rest);
      }
      DecodeChar(s, i, text, Decoded(Chars(text.rest), JunkCount(text.rest)));
    }
  }

  /** Resynchronisation: whatever stray bytes and unfinished characters are put before, between
      and behind the characters of a string, the characters read are the same, and exactly the
      bytes put in are counted as illegal. */
  lemma JunkChangesNothing(text: Text)
    requires Valid(text)
    ensures CString(Written(text))
    ensures Decode(Written(text), 0) == Decoded(Chars(text), JunkCount(text))
  {
    EndsWithNul(text);
    WrittenAt(Written(text), 0, text);
    DecodeText(Written(text), 0, text);
  }

  lemma {:induction false} EndsWithNul(text: Text)
    requires Valid(text)
    ensures CString(Written(text))
  {
    match text
    case End(_) =>
    case Char(_, _, rest) => EndsWithNul(rest);
  }

  /** A read that reaches the end of the string has read its NUL. */
  lemma {:induction false} EndIsNul(s: seq<byte>, t: nat)
    requires CString(s) && t < |s| && Umap(s[t]) != 0
    ensures GetAt(s, t).next == |s| ==> GetAt(s, t).uc == 0
    decreases |s| - t
  {
    var n := Umap(s[t]);
    if n > 1 && NextLead(s, t + 1) < t + n {
      EndIsNul(s, NextLead(s, t + 1));
    }
  }

  // ----- the encoder -----

  /** A UCS-4 array is a run of characters, negative ones included, closed by a zero. */
  predicate UcsString(us: seq<int>) {
    |us| > 0 && us[|us| - 1] == 0 && forall i :: 0 <= i < |us| ==> us[i] < 0x8000_0000
  }

  /** The forms of the first `m` characters, the negative ones left out. */
  function Forms(us: seq<int>, m: nat): seq<byte>
    requires m <= |us| && forall i :: 0 <= i < m ==> us[i] < 0x8000_0000
  {
    if m == 0 then [] else Forms(us, m - 1) + (if us[m - 1] < 0 then [] else Form(us[m - 1]))
  }

  function Negatives(us: seq<int>, m: nat): nat
    requires m <= |us|
  {
    if m == 0 then 0 else Negatives(us, m - 1) + (if us[m - 1] < 0 then 1 else 0)
  }

  /** How many of the first m are negative. */
  lemma {:induction false} NegativesCount(us: seq<int>, m: nat)
    requires m <= |us|
    ensures Negatives(us, m) == |set k | 0 <= k < m && us[k] < 0|
  {
    if m > 0 {
      NegativesCount(us, m - 1);
      var before, now := set k | 0 <= k < m - 1 && us[k] < 0, set k | 0 <= k < m && us[k] < 0;
      assert now == if us[m - 1] < 0 then before + {m - 1} else before;
    }
  }

  /** Adding characters never makes the forms shorter, so a prefix that stops where the next
      character does not fit is the longest that fits. */
  lemma {:induction false} FormsGrow(us: seq<int>, m: nat, k: nat)
    requires UcsString(us) && m <= k <= |us|
    ensures |Forms(us, m)| <= |Forms(us, k)|
    ensures m < k && us[m] >= 0 ==> |Forms(us, m)| + FormLength(us[m]) <= |Forms(us, k)|
    decreases k - m
  {
    if m < k {
      FormsGrow(us, m + 1, k);
      assert Forms(us, m + 1) == Forms(us, m) + (if us[m] < 0 then [] else Form(us[m]));
    }
  }

  /** The characters as a text without junk. */
  function Plain(us: seq<nat>, i: nat): Text
    requires i <= |us|
    decreases |us| - i
  {
    var none := Junk([], NoGroup);
    if i == |us| then End(none) else Char(none, us[i], Plain(us, i + 1))
  }

  predicate Characters(us: seq<nat>) {
    forall i :: 0 <= i < |us| ==> 0 < us[i] < 0x8000_0000
  }

  lemma {:induction false} PlainChars(us: seq<nat>, i: nat)
    requires Characters(us) && i <= |us|
    ensures Valid(Plain(us, i)) && JunkCount(Plain(us, i)) == 0 && Chars(Plain(us, i)) == us[i..]
    decreases |us| - i
  {
    if i < |us| {
      PlainChars(us, i + 1);
    }
  }

  lemma PlainStep(us: seq<nat>, i: nat)
    requires i <= |us| && Valid(Plain(us, i))
    ensures Written(Plain(us, i)) ==
            if i == |us| then [NUL] else Form(us[i]) + Written(Plain(us, i + 1))
  {
    assert JunkBytes(Junk([], NoGroup)) == [];
    if i < |us| {
      assert [] + Form(us[i]) == Form(us[i]);
    } else {
      assert [] + Form(0) == [NUL];
    }
  }

  lemma {:induction false} PlainForms(us: seq<nat>, i: nat)
    requires Characters(us) && i <= |us|
    ensures Valid(Plain(us, i))
    ensures Forms(us, i) + Written(Plain(us, i)) == Forms(us, |us|) + [NUL]
    decreases |us| - i
  {
    PlainChars(us, i);
    PlainStep(us, i);
    if i < |us| {
      PlainForms(us, i + 1);
      Assoc(Forms(us, i), Form(us[i]), Written(Plain(us, i + 1)));
    }
  }

  /** Round trip: decoding the encoding of any characters gives them back, nothing illegal. */
  lemma RoundTrip(us: seq<nat>)
    requires Characters(us)
    ensures CString(Forms(us, |us|) + [NUL])
    ensures Decode(Forms(us, |us|) + [NUL], 0) == Decoded(us, 0)
  {
    PlainChars(us, 0);
    PlainForms(us, 0);
    var text := Plain(us, 0);
    assert [] + Written(text) == Written(text);
    assert us[0..] == us;
    JunkChangesNothing(text);
  }
}
