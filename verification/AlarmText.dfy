/** What esp_alarm_add lets through to the numbers of a periodic alarm: the text is copied, cut to
    size, and loses its minus signs before a number is read. */
module AlarmText {
  import opened Options

  const MAX_FORMAT_LEN: nat := 42
  const PER_FORMAT_LEN: nat := 38
  const DATE_LEN: nat := 20
  const TYPE_LEN: nat := 4

  /** The buffer of esp_alarm_add: cleared, and the text copied into it without its NUL. */
  function Copied(text: string): string
    requires |text| <= MAX_FORMAT_LEN
  {
    text + seq(MAX_FORMAT_LEN - |text|, i => '\0')
  }

  /** The copy is a string, and then it is the text, if and only if the text is shorter than the
      buffer; esp_alarm_add also lets through a text as long as the buffer. */
  lemma CopyEndsIff(text: string)
    requires |text| <= MAX_FORMAT_LEN && '\0' !in text
    ensures MAX_FORMAT_LEN == |Copied(text)| == 42
    ensures '\0' in Copied(text) <==> |text| < 42
    ensures |text| < 42 ==> Copied(text)[|text|] == '\0' && Copied(text)[..|text|] == text
  {
    if |text| < MAX_FORMAT_LEN {
      assert Copied(text)[|text|] == '\0';
    }
  }

  /** chopN */
  function Chop(s: string, n: nat): string {
    if n > |s| then s else s[n..]
  }

  function Blanked(c: char): char {
    if c == '-' || c == ':' then ' ' else c
  }

  /** remove_TESP_OKens_PER */
  function Cleaned(s: string): string {
    seq(|s|, i requires 0 <= i < |s| => if i < PER_FORMAT_LEN then Blanked(s[i]) else s[i])
  }

  /** The loop of remove_TESP_OKens_PER, in place, on the len characters before the NUL. */
  method RemoveTokens(source: array<char>, len: nat)
    requires len <= source.Length
    modifies source
    ensures source[..len] == Cleaned(old(source[..len]))
    ensures forall k :: 0 <= k < len ==>
      source[k] == if k < 38 && old(source[k]) in "-:" then ' ' else old(source[k])
    ensures source[len..] == old(source[len..])
  {
    var i := 0;
    while i < len && i < PER_FORMAT_LEN
      invariant i <= len && i <= PER_FORMAT_LEN
      invariant forall k :: 0 <= k < i ==> source[k] == Blanked(old(source[k]))
      invariant forall k :: i <= k < source.Length ==> source[k] == old(source[k])
    {
      source[i] := Blanked(source[i]);
      i := i + 1;
    }
  }

  predicate IsDigit(c: char) { '0' <= c <= '9' }

  predicate IsSpace(c: char) { c in " \t\n\r" }

  /** The value of the digits from i on, and where they end. */
  function Digits(s: string, i: nat, value: nat): (nat, nat)
    decreases |s| - i
  {
    if i < |s| && IsDigit(s[i]) then Digits(s, i + 1, 10 * value + (s[i] - '0') as nat) else (value, i)
  }

  /** %d of sscanf: the number and where it ends. */
  function Number(s: string, i: nat): Option<(int, nat)>
    decreases |s| - i
  {
    if i >= |s| then None
    else if IsSpace(s[i]) then Number(s, i + 1)
    else
      var signed := s[i] == '-' || s[i] == '+';
      var from := if signed then i + 1 else i;
      if from >= |s| || !IsDigit(s[from]) then None
      else
        var (value, end) := Digits(s, from, 0);
        var number: int := if s[i] == '-' then 0 - value else value;
        Some((number, end))
  }

  /** n numbers, as sscanf fills them in. */
  function Numbers(s: string, i: nat, n: nat): Option<seq<int>>
    decreases n
  {
    if n == 0 then Some([])
    else
      var first := Number(s, i);
      if first.None? then None
      else
        var rest := Numbers(s, first.value.1, n - 1);
        if rest.None? then None else Some([first.value.0] + rest.value)
  }

  /** The date and the period of a periodic alarm: get_Type, the removal of the signs, get_Date with
      its chop, and get_Period_Date. */
  function Date(text: string): Option<seq<int>> {
    Numbers(Cleaned(Chop(text, TYPE_LEN)), 0, 6)
  }

  function Period(text: string): Option<seq<int>> {
    Numbers(Chop(Cleaned(Chop(text, TYPE_LEN)), DATE_LEN), 0, 6)
  }

  lemma {:induction false} NumberIsNat(s: string, i: nat)
    requires '-' !in s
    ensures Number(s, i).Some? ==> Number(s, i).value.0 >= 0
    decreases |s| - i
  {
    if i < |s| {
      assert s[i] in s && s[i] != '-';
      if IsSpace(s[i]) {
        NumberIsNat(s, i + 1);
        assert Number(s, i) == Number(s, i + 1);
      } else if Number(s, i).Some? {
        assert Number(s, i).value.0 == Digits(s, if s[i] == '+' then i + 1 else i, 0).0;
      }
    }
  }

  lemma {:induction false} NumbersAreNat(s: string, i: nat, n: nat)
    requires '-' !in s && Numbers(s, i, n).Some?
    ensures forall v :: v in Numbers(s, i, n).value ==> v >= 0
    decreases n
  {
    if n > 0 {
      NumberIsNat(s, i);
      NumbersAreNat(s, Number(s, i).value.1, n - 1);
    }
  }

  /** No number that esp_alarm_add gets from a text shorter than its buffer is negative. */
  lemma {:induction false} NoNegativeField(text: string)
    requires |text| < MAX_FORMAT_LEN
    ensures Date(text).Some? ==> forall v :: v in Date(text).value ==> v >= 0
    ensures Period(text).Some? ==> forall v :: v in Period(text).value ==> v >= 0
  {
    var s := Cleaned(Chop(text, TYPE_LEN));
    assert '-' !in s;
    assert '-' !in Chop(s, DATE_LEN);
    if Date(text).Some? {
      NumbersAreNat(s, 0, 6);
    }
    if Period(text).Some? {
      NumbersAreNat(Chop(s, DATE_LEN), 0, 6);
    }
  }

  // ----- what is read -----

  /** A decimal number, with leading zeros or not. */
  predicate IsDecimal(d: string) {
    d != "" && AllDigits(d)
  }

  predicate AllDigits(d: string) {
    forall k :: 0 <= k < |d| ==> '0' <= d[k] <= '9'
  }

  function Value(d: string): nat
    requires AllDigits(d)
  {
    if d == "" then 0 else 10 * Value(d[..|d| - 1]) + (d[|d| - 1] - '0') as nat
  }

  lemma {:induction false} DigitsRead(s: string, from: nat, d: string, k: nat)
    requires IsDecimal(d) && k <= |d| && from + |d| <= |s| && s[from..from + |d|] == d
    requires from + |d| < |s| ==> !('0' <= s[from + |d|] <= '9')
    ensures Digits(s, from + k, Value(d[..k])) == (Value(d), from + |d|)
    decreases |d| - k
  {
    if k == |d| {
      assert d[..k] == d;
    } else {
      assert s[from + k] == s[from..from + |d|][k] == d[k];
      assert d[..k + 1][..k] == d[..k];
      DigitsRead(s, from, d, k + 1);
    }
  }

  /** Behind blanks, a decimal number is read up to its last digit. */
  lemma {:induction false} NumberRead(s: string, i: nat, from: nat, d: string)
    requires i <= from && IsDecimal(d) && from + |d| <= |s| && s[from..from + |d|] == d
    requires from + |d| < |s| ==> !('0' <= s[from + |d|] <= '9')
    requires forall k :: i <= k < from ==> s[k] == ' '
    ensures Number(s, i) == Some((Value(d) as int, from + |d|))
    decreases from - i
  {
    if i < from {
      NumberRead(s, i + 1, from, d);
    } else {
      assert s[from] == s[from..from + |d|][0] == d[0];
      DigitsRead(s, from, d, 0);
      assert d[..0] == "";
    }
  }

  /** With a sign in front of it. */
  lemma {:induction false} SignedRead(s: string, i: nat, d: string)
    requires IsDecimal(d) && i + 1 + |d| <= |s| && s[i + 1..i + 1 + |d|] == d && s[i] in "+-"
    requires i + 1 + |d| < |s| ==> !('0' <= s[i + 1 + |d|] <= '9')
    ensures Number(s, i) == Some(((if s[i] == '-' then 0 - Value(d) else Value(d)) as int, i + 1 + |d|))
  {
    assert s[i + 1] == s[i + 1..i + 1 + |d|][0] == d[0];
    DigitsRead(s, i + 1, d, 0);
    assert d[..0] == "";
  }

  /** Without a digit there is no number. */
  lemma NoNumber(s: string, i: nat)
    requires i < |s| ==> s[i] !in " \t\n\r" && !('0' <= s[i] <= '9')
    requires i + 1 < |s| && s[i] in "+-" ==> !('0' <= s[i + 1] <= '9')
    ensures Number(s, i) == None
  {
  }

  lemma {:induction false} NumberIn(pre: string, d: string, post: string, i: nat)
    requires IsDecimal(d) && (post != "" ==> !('0' <= post[0] <= '9'))
    requires i <= |pre| && forall k :: i <= k < |pre| ==> pre[k] == ' '
    ensures Number(pre + d + post, i) == Some((Value(d) as int, |pre| + |d|))
  {
    var s := pre + d + post;
    assert s[|pre|..|pre| + |d|] == d;
    NumberRead(s, i, |pre|, d);
  }

  /** Numbers with a blank between each two. */
  function Spaced(ds: seq<string>): string {
    if ds == [] then "" else if |ds| == 1 then ds[0] else ds[0] + " " + Spaced(ds[1..])
  }

  predicate AllDecimal(ds: seq<string>) {
    ds == [] || (IsDecimal(ds[0]) && AllDecimal(ds[1..]))
  }

  function Values(ds: seq<string>): seq<int>
    requires AllDecimal(ds)
  {
    if ds == [] then [] else [Value(ds[0])] + Values(ds[1..])
  }

  /** Numbers with a blank between each two are read, wherever they stand behind blanks. */
  lemma {:induction false} NumbersRead(pre: string, ds: seq<string>, post: string, i: nat)
    requires AllDecimal(ds)
    requires post != "" ==> !('0' <= post[0] <= '9')
    requires i <= |pre| && forall k :: i <= k < |pre| ==> pre[k] == ' '
    ensures Numbers(pre + Spaced(ds) + post, i, |ds|) == Some(Values(ds))
    decreases |ds|
  {
    if |ds| == 1 {
      NumberIn(pre, ds[0], post, i);
      assert Spaced(ds) == ds[0] && ds[1..] == [];
    } else if ds != [] {
      var d, rest := ds[0], Spaced(ds[1..]);
      var s := pre + Spaced(ds) + post;
      Recut(pre, d, rest, post);
      assert s == pre + d + (" " + (rest + post)) && s == (pre + d + " ") + rest + post;
      NumberIn(pre, d, " " + (rest + post), i);
      NumbersRead(pre + d + " ", ds[1..], post, |pre| + |d|);
    }
  }

  lemma Recut(pre: string, d: string, rest: string, post: string)
    ensures pre + (d + " " + rest) + post == pre + d + (" " + (rest + post))
    ensures pre + (d + " " + rest) + post == (pre + d + " ") + rest + post
  {
  }

  /** A text of a type and six numbers each for the date and the period, with '-', ':' or a blank
      between each two and the date 19 characters long: exactly these numbers are read. */
  lemma {:induction false} ReadsDateAndPeriod(text: string, date: seq<string>, period: seq<string>)
    requires |date| == |period| == 6 && 4 <= |text| < 42
    requires AllDecimal(date) && AllDecimal(period)
    requires |Spaced(date)| == 19
    requires var printed := Spaced(date) + " " + Spaced(period);
      |text| == 4 + |printed| && forall k :: 0 <= k < |printed| ==>
        text[4 + k] == printed[k] || (printed[k] == ' ' && text[4 + k] in "-:")
    ensures Date(text) == Some(Values(date)) && Period(text) == Some(Values(period))
  {
    var d, p := Spaced(date), Spaced(period);
    var s := Cleaned(Chop(text, TYPE_LEN));
    CleanedIsSpaced(text, date, period);
    assert s == "" + d + (" " + p);
    NumbersRead("", date, " " + p, 0);
    assert Chop(s, DATE_LEN) == p == "" + p + "";
    NumbersRead("", period, "", 0);
  }

  /** Without its type and its signs the text is the numbers. */
  lemma {:induction false} CleanedIsSpaced(text: string, date: seq<string>, period: seq<string>)
    requires 4 <= |text| < 42 && AllDecimal(date) && AllDecimal(period)
    requires var printed := Spaced(date) + " " + Spaced(period);
      |text| == 4 + |printed| && forall k :: 0 <= k < |printed| ==>
        text[4 + k] == printed[k] || (printed[k] == ' ' && text[4 + k] in "-:")
    ensures Cleaned(Chop(text, TYPE_LEN)) == Spaced(date) + " " + Spaced(period)
  {
    var printed := Spaced(date) + " " + Spaced(period);
    SpacedHasNoSigns(date);
    SpacedHasNoSigns(period);
    assert forall k :: 0 <= k < |printed| ==> printed[k] == ' ' || '0' <= printed[k] <= '9';
    forall k | 0 <= k < |printed| ensures Cleaned(Chop(text, TYPE_LEN))[k] == printed[k] {
      assert Chop(text, TYPE_LEN)[k] == text[4 + k];
    }
  }

  lemma {:induction false} SpacedHasNoSigns(ds: seq<string>)
    requires AllDecimal(ds)
    ensures forall k :: 0 <= k < |Spaced(ds)| ==> Spaced(ds)[k] == ' ' || '0' <= Spaced(ds)[k] <= '9'
  {
    if |ds| > 1 {
      SpacedHasNoSigns(ds[1..]);
    }
  }
}
