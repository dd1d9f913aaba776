/** The form encoding of dd_http.c and the decoding of httpd.c.  Bytes are given by their ASCII
    codes. */
module FormCodec {
  import opened Bytes

  const SPACE: byte := 32
  const PLUS: byte := 43
  const PERCENT: byte := 37

  /** Characters that URLEncode leaves alone: its ranges end before 'Z', 'z' and '9'. */
  predicate Plain(c: byte) {
    65 <= c < 90 || 97 <= c < 122 || 48 <= c < 57 || c == 46 || c == 45 || c == 95 || c == 42
  }

  predicate Escapes(c: byte) {
    !Plain(c) && c != SPACE
  }

  /** %X of a value below 16 */
  function HexDigit(n: nat): byte
    requires n < 16
  {
    if n < 10 then 48 + n else 55 + n
  }

  /** httpdHexVal */
  function HexVal(c: byte): (n: nat)
    ensures n < 16
  {
    if 48 <= c <= 57 then c - 48
    else if 65 <= c <= 70 then c - 65 + 10
    else if 97 <= c <= 102 then c - 97 + 10
    else 0
  }

  /** A character has the value of a digit above 0 exactly when it is that digit, in either case. */
  lemma HexValIs(c: byte, d: nat)
    requires 0 < d < 16
    ensures HexVal(c) == d <==> c == HexDigit(d) || (d >= 10 && c == HexDigit(d) + 32)
  {
  }

  function EncodeByte(c: byte): seq<byte> {
    if Plain(c) then [c]
    else if c == SPACE then [PLUS]
    else [PERCENT, HexDigit(c / 16), HexDigit(c % 16)]
  }

  /** The encoding of the bytes from index i on. */
  function EncodeFrom(s: seq<byte>, i: nat): seq<byte>
    decreases |s| - i
  {
    if i >= |s| then [] else EncodeByte(s[i]) + EncodeFrom(s, i + 1)
  }

  function Encode(s: seq<byte>): seq<byte> {
    EncodeFrom(s, 0)
  }

  /** The encoding of the bytes before index i. */
  ghost function EncodeTo(s: seq<byte>, i: nat): seq<byte>
    requires i <= |s|
  {
    if i == 0 then [] else EncodeTo(s, i - 1) + EncodeByte(s[i - 1])
  }

  lemma {:induction false} EncodeSplit(s: seq<byte>, i: nat)
    requires i <= |s|
    ensures EncodeTo(s, i) + EncodeFrom(s, i) == Encode(s)
  {
    if i > 0 {
      EncodeSplit(s, i - 1);
      Assoc(EncodeTo(s, i - 1), EncodeByte(s[i - 1]), EncodeFrom(s, i));
    }
  }

  /** Where the loop of URLEncode ends from index i with j bytes written; -1 when an escape does
      not fit. */
  function EndFrom(s: seq<byte>, size: nat, i: nat, j: nat): (end: int)
    requires i <= |s| && j <= size
    ensures -1 <= end <= size
    decreases |s| - i
  {
    if i == |s| || j == size then j
    else if !Escapes(s[i]) then EndFrom(s, size, i + 1, j + 1)
    else if j + 3 < size then EndFrom(s, size, i + 1, j + 3)
    else -1
  }

  /** What URLEncode returns. */
  function Returned(s: seq<byte>, size: int): int {
    if s == [] || size <= 0 then 0
    else
      var end := EndFrom(s, size, 0, 0);
      if end < 0 then 0 else end
  }

  /** The loop has filled the whole size. */
  predicate WritesPast(s: seq<byte>, size: int) {
    size > 0 && Returned(s, size) == size
  }

  /** The body of the loop of URLEncode; false when an escape does not fit. */
  method PutByte(ch: byte, result: array<byte>, j: nat, size: nat) returns (ok: bool, next: nat)
    requires j < size <= result.Length
    modifies result
    ensures ok == (!Escapes(ch) || j + 3 < size)
    ensures ok ==> next == j + |EncodeByte(ch)| <= size && result[..next] == old(result[..j]) + EncodeByte(ch)
    ensures forall k :: size <= k < result.Length ==> result[k] == old(result[k])
  {
    ok, next := true, j + 1;
    if Plain(ch) {
      result[j] := ch;
    } else if ch == SPACE {
      result[j] := PLUS;
    } else if j + 3 < size {
      result[j], result[j + 1], result[j + 2] := PERCENT, HexDigit(ch / 16), HexDigit(ch % 16);
      result[j + 3] := NUL;
      next := j + 3;
    } else {
      ok := false;
    }
  }

  /** URLEncode.  The NUL behind a result of the full size is written past that size, so the array
      has to have a cell more exactly when WritesPast says so. */
  method UrlEncode(str: seq<byte>, result: array<byte>, size: int) returns (r: int)
    requires size <= result.Length && (WritesPast(str, size) ==> size < result.Length)
    modifies result
    ensures r == Returned(str, size)
    ensures r > 0 ==> r <= |Encode(str)| && result[..r] == Encode(str)[..r]
    ensures 0 < r < size || WritesPast(str, size) ==> result[r] == NUL
    ensures WritesPast(str, size) ==> r == size
    ensures forall k :: 0 <= k < result.Length && size <= k && (k == size ==> !WritesPast(str, size)) ==>
      result[k] == old(result[k])
  {
    if str == [] || size <= 0 {
      return 0;
    }
    var i, j := 0, 0;
    while i < |str| && j < size
      invariant 0 <= i <= |str| && 0 <= j <= size
      invariant EndFrom(str, size, 0, 0) == EndFrom(str, size, i, j)
      invariant result[..j] == EncodeTo(str, i)
      invariant forall k :: size <= k < result.Length ==> result[k] == old(result[k])
    {
      var ok, next := PutByte(str[i], result, j, size);
      if !ok {
        return 0;
      }
      i, j := i + 1, next;
    }
    EncodeSplit(str, i);
    result[j] := NUL;
    return j;
  }

  lemma {:induction false} EndIs(s: seq<byte>, size: nat, i: nat, j: nat)
    requires i <= |s| && s != [] && j <= size
    ensures var whole := j + |EncodeFrom(s, i)|;
      EndFrom(s, size, i, j) == whole
      <==> whole < size || (whole == size && (i == |s| || !Escapes(s[|s| - 1])))
    decreases |s| - i
  {
    if i < |s| && j < size && (!Escapes(s[i]) || j + 3 < size) {
      EndIs(s, size, i + 1, j + |EncodeByte(s[i])|);
    }
  }

  /** The encoding is whole exactly when it is shorter than the size, or as long and its last
      character needs no escape, where its NUL goes past the size; 0 or a cut encoding is returned
      otherwise. */
  lemma WholeIffFits(s: seq<byte>, size: nat)
    requires s != [] && size > 0
    ensures Returned(s, size) == |Encode(s)|
      <==> |Encode(s)| < size || (|Encode(s)| == size && !Escapes(s[|s| - 1]))
  {
    EndIs(s, size, 0, 0);
  }

  lemma {:induction false} EndReaches(s: seq<byte>, size: nat, i: nat, k: nat)
    requires 0 < k <= |s| && i <= k && |EncodeTo(s, k)| == size && !Escapes(s[k - 1])
    ensures |EncodeTo(s, i)| <= size && (i < k ==> |EncodeTo(s, i)| < size)
    ensures EndFrom(s, size, i, |EncodeTo(s, i)|) == size
    decreases k - i
  {
    if i < k {
      EndReaches(s, size, i + 1, k);
    }
  }

  lemma {:induction false} EndReached(s: seq<byte>, size: nat, i: nat) returns (k: nat)
    requires i <= |s| && |EncodeTo(s, i)| <= size && (|EncodeTo(s, i)| == size ==> 0 < i && !Escapes(s[i - 1]))
    requires size > 0 && EndFrom(s, size, i, |EncodeTo(s, i)|) == size
    ensures 0 < k <= |s| && |EncodeTo(s, k)| == size && !Escapes(s[k - 1])
    decreases |s| - i
  {
    if |EncodeTo(s, i)| == size {
      k := i;
    } else {
      k := EndReached(s, size, i + 1);
    }
  }

  /** URLEncode writes past the size it is given if and only if the encoding of some first
      characters, the last of them unescaped, is exactly that long. */
  lemma {:induction false} WritesPastIff(s: seq<byte>, size: nat)
    requires size > 0
    ensures WritesPast(s, size)
      <==> exists k :: 0 < k <= |s| && |EncodeTo(s, k)| == size && !Escapes(s[k - 1])
  {
    if k :| 0 < k <= |s| && |EncodeTo(s, k)| == size && !Escapes(s[k - 1]) {
      EndReaches(s, size, 0, k);
    }
    if WritesPast(s, size) {
      var k := EndReached(s, size, 0);
    }
  }

  /** "A" into one cell. */
  lemma {:induction false} ExampleWritesPast()
    ensures WritesPast([65], 1)
  {
    assert EndFrom([65], 1, 0, 0) == EndFrom([65], 1, 1, 1);
  }

  lemma {:induction false} AtMostThreefold(s: seq<byte>, i: nat)
    requires i <= |s|
    ensures |EncodeFrom(s, i)| <= 3 * (|s| - i)
    decreases |s| - i
  {
    if i < |s| {
      AtMostThreefold(s, i + 1);
    }
  }

  /** The state of httpdUrlDecode between two bytes. */
  datatype Mode = Idle | First | Second(high: nat)

  function NextMode(mode: Mode, c: byte): Mode {
    match mode
    case First => Second(HexVal(c) * 16)
    case Second(_) => Idle
    case Idle => if c == PERCENT then First else Idle
  }

  function Emits(mode: Mode, c: byte): seq<byte> {
    match mode
    case First => []
    case Second(high) => [(high + HexVal(c)) % 256]
    case Idle => if c == PERCENT then [] else if c == PLUS then [SPACE] else [c]
  }

  /** The bytes decoded from index i on. */
  function DecodeFrom(val: seq<byte>, i: nat, mode: Mode): seq<byte>
    decreases |val| - i
  {
    if i >= |val| then [] else Emits(mode, val[i]) + DecodeFrom(val, i + 1, NextMode(mode, val[i]))
  }

  function Decode(val: seq<byte>): seq<byte> {
    DecodeFrom(val, 0, Idle)
  }

  ghost function ModeOf(esced: int, escVal: nat): Mode {
    if esced == 1 then First else if esced == 2 then Second(escVal) else Idle
  }

  /** The body of the loop of httpdUrlDecode. */
  method TakeByte(c: byte, ret: array<byte>, d: nat, esced: nat, escVal: nat)
    returns (d': nat, esced': nat, escVal': nat)
    requires d < ret.Length
    modifies ret
    ensures ModeOf(esced', escVal') == NextMode(ModeOf(esced, escVal), c)
    ensures d <= d' <= d + 1 && ret[..d'] == old(ret[..d]) + Emits(ModeOf(esced, escVal), c)
    ensures forall k :: d < k < ret.Length ==> ret[k] == old(ret[k])
  {
    d', esced', escVal' := d, esced, escVal;
    if esced == 1 {
      escVal', esced' := HexVal(c) * 16, 2;
    } else if esced == 2 {
      escVal' := escVal + HexVal(c);
      ret[d] := escVal' % 256;
      d', esced' := d + 1, 0;
    } else if c == PERCENT {
      esced' := 1;
    } else if c == PLUS {
      ret[d] := SPACE;
      d' := d + 1;
    } else {
      ret[d] := c;
      d' := d + 1;
    }
  }

  /** httpdUrlDecode: as much of the decoded value as fits, closed with a NUL if there is room. */
  method UrlDecode(val: seq<byte>, ret: array<byte>, retLen: nat) returns (d: nat)
    requires retLen <= ret.Length
    modifies ret
    ensures d == if |Decode(val)| < retLen then |Decode(val)| else retLen
    ensures ret[..d] == Decode(val)[..d]
    ensures d < retLen ==> ret[d] == NUL
    ensures forall k :: retLen <= k < ret.Length ==> ret[k] == old(ret[k])
  {
    var s, esced: nat, escVal: nat := 0, 0, 0;
    d := 0;
    while s < |val| && d < retLen
      invariant 0 <= s <= |val| && 0 <= d <= retLen
      invariant ret[..d] + DecodeFrom(val, s, ModeOf(esced, escVal)) == Decode(val)
      invariant forall k :: retLen <= k < ret.Length ==> ret[k] == old(ret[k])
    {
      ghost var done, mode := ret[..d], ModeOf(esced, escVal);
      d, esced, escVal := TakeByte(val[s], ret, d, esced, escVal);
      s := s + 1;
      Assoc(done, Emits(mode, val[s - 1]), DecodeFrom(val, s, ModeOf(esced, escVal)));
    }
    if d < retLen {
      ret[d] := NUL;
    }
  }

  lemma HexRoundTrip(n: nat)
    requires n < 16
    ensures HexVal(HexDigit(n)) == n
  {
  }

  lemma DecodesEscape(val: seq<byte>, i: nat, c: byte)
    requires i + 3 <= |val|
    requires val[i] == PERCENT && val[i + 1] == HexDigit(c / 16) && val[i + 2] == HexDigit(c % 16)
    ensures DecodeFrom(val, i, Idle) == [c] + DecodeFrom(val, i + 3, Idle)
  {
    HexRoundTrip(c / 16);
    HexRoundTrip(c % 16);
    assert DecodeFrom(val, i, Idle) == DecodeFrom(val, i + 1, First);
    assert DecodeFrom(val, i + 1, First) == DecodeFrom(val, i + 2, Second(c / 16 * 16));
  }

  /** One encoded byte decodes to itself, wherever it stands. */
  lemma DecodesByte(val: seq<byte>, i: nat, c: byte)
    requires IsAt(val, i, EncodeByte(c))
    ensures DecodeFrom(val, i, Idle) == [c] + DecodeFrom(val, i + |EncodeByte(c)|, Idle)
  {
    var e := EncodeByte(c);
    assert val[i] == e[0];
    if Escapes(c) {
      assert val[i + 1] == e[1] && val[i + 2] == e[2];
      DecodesEscape(val, i, c);
    }
  }

  lemma {:induction false} DecodesRest(val: seq<byte>, i: nat, s: seq<byte>, k: nat)
    requires k <= |s| && IsAt(val, i, EncodeFrom(s, k)) && i + |EncodeFrom(s, k)| == |val|
    ensures DecodeFrom(val, i, Idle) == s[k..]
    decreases |s| - k
  {
    if k < |s| {
      IsAtSplit(val, i, EncodeByte(s[k]), EncodeFrom(s, k + 1));
      DecodesByte(val, i, s[k]);
      DecodesRest(val, i + |EncodeByte(s[k])|, s, k + 1);
      assert s[k..] == [s[k]] + s[k + 1..];
    }
  }

  /** Decoding undoes encoding. */
  lemma RoundTrip(s: seq<byte>)
    ensures Decode(Encode(s)) == s
  {
    DecodesRest(Encode(s), 0, s, 0);
  }

  /** With three cells a byte and one more, URLEncode writes the whole encoding. */
  lemma RoomForAll(s: seq<byte>, size: nat)
    requires s != [] && 3 * |s| < size
    ensures Returned(s, size) == |Encode(s)|
  {
    AtMostThreefold(s, 0);
    WholeIffFits(s, size);
  }

  /** The two functions of the firmware one behind the other, on real buffers. */
  method ThereAndBack(str: seq<byte>, size: nat, retLen: nat) returns (ret: array<byte>, d: nat)
    requires 3 * |str| < size && |str| <= retLen
    ensures fresh(ret) && d <= ret.Length && ret[..d] == str
  {
    var result := new byte[size];
    ret := new byte[retLen];
    if str != [] {
      RoomForAll(str, size);
      AtMostThreefold(str, 0);
    }
    var r := UrlEncode(str, result, size);
    RoundTrip(str);
    assert result[..r] == Encode(str);
    d := UrlDecode(result[..r], ret, retLen);
  }

  // ----- what is left alone and what is escaped -----

  const UPPER := "ABCDEFGHIJKLMNOPQRSTUVWXY"
  const LOWER := "abcdefghijklmnopqrstuvwxy"
  const DIGITS := "012345678"
  const MARKS := ".-_*"
  const HEX := "0123456789ABCDEF"

  predicate In(c: byte, s: string) {
    exists k :: 0 <= k < |s| && s[k] as int == c
  }

  /** The bytes that a form keeps as they are. */
  predicate Kept(c: byte) {
    In(c, UPPER) || In(c, LOWER) || In(c, DIGITS) || In(c, MARKS)
  }

  lemma UpperIs(c: byte)
    ensures In(c, UPPER) <==> 65 <= c < 90
  {
    if 65 <= c < 90 {
      assert UPPER[c - 65] as int == c;
    }
  }

  lemma LowerIs(c: byte)
    ensures In(c, LOWER) <==> 97 <= c < 122
  {
    if 97 <= c < 122 {
      assert LOWER[c - 97] as int == c;
    }
  }

  lemma DigitIs(c: byte)
    ensures In(c, DIGITS) <==> 48 <= c < 57
  {
    if 48 <= c < 57 {
      assert DIGITS[c - 48] as int == c;
    }
  }

  lemma MarkIs(c: byte)
    ensures In(c, MARKS) <==> c == 46 || c == 45 || c == 95 || c == 42
  {
    assert MARKS[0] as int == 46 && MARKS[1] as int == 45 && MARKS[2] as int == 95 && MARKS[3] as int == 42;
  }

  lemma KeptIsPlain(c: byte)
    ensures Kept(c) <==> Plain(c)
  {
    UpperIs(c);
    LowerIs(c);
    DigitIs(c);
    MarkIs(c);
  }

  /** A byte is encoded as itself if and only if it is one of the characters kept, the space as '+',
      and each other byte as '%' and its two upper-case hexadecimal digits. */
  lemma EncodedOne(c: byte)
    ensures Encode([c]) == [c] <==> Kept(c)
    ensures c == ' ' as int ==> Encode([c]) == ['+' as int]
    ensures !Kept(c) && c != ' ' as int ==> Encode([c]) == ['%' as int, HEX[c / 16] as int, HEX[c % 16] as int]
  {
    KeptIsPlain(c);
    assert EncodeFrom([c], 1) == [];
  }

  lemma {:induction false} EncodeBehind(a: seq<byte>, b: seq<byte>, i: nat)
    requires i <= |b|
    ensures EncodeFrom(a + b, |a| + i) == EncodeFrom(b, i)
    decreases |b| - i
  {
    if i < |b| {
      EncodeBehind(a, b, i + 1);
    }
  }

  lemma {:induction false} EncodeInFront(a: seq<byte>, b: seq<byte>, i: nat)
    requires i <= |a|
    ensures EncodeFrom(a + b, i) == EncodeFrom(a, i) + Encode(b)
    decreases |a| - i
  {
    if i == |a| {
      EncodeBehind(a, b, 0);
      assert [] + Encode(b) == Encode(b);
    } else {
      EncodeInFront(a, b, i + 1);
      Assoc(EncodeByte(a[i]), EncodeFrom(a, i + 1), Encode(b));
    }
  }

  /** Text is encoded byte by byte. */
  lemma EncodeConcat(a: seq<byte>, b: seq<byte>)
    ensures Encode(a + b) == Encode(a) + Encode(b) && Encode([]) == []
  {
    EncodeInFront(a, b, 0);
  }

  /** Nothing else than the characters kept, hexadecimal digits, '+' and '%' is in an encoding. */
  lemma {:induction false} EncodeAlphabet(s: seq<byte>, k: nat)
    requires k < |Encode(s)|
    ensures var c := Encode(s)[k]; Kept(c) || In(c, HEX) || c == '+' as int || c == '%' as int
  {
    var c := s[0];
    assert s == [c] + s[1..];
    EncodeConcat([c], s[1..]);
    EncodedOne(c);
    if k >= |Encode([c])| {
      EncodeAlphabet(s[1..], k - |Encode([c])|);
    }
  }

  // ----- what is decoded -----

  lemma {:induction false} DecodeBehind(a: seq<byte>, b: seq<byte>, i: nat, mode: Mode)
    requires i <= |b|
    ensures DecodeFrom(a + b, |a| + i, mode) == DecodeFrom(b, i, mode)
    decreases |b| - i
  {
    if i < |b| {
      DecodeBehind(a, b, i + 1, NextMode(mode, b[i]));
    }
  }

  /** A byte that does not start an escape stands for itself, '+' for a space. */
  lemma DecodedOne(c: byte, rest: seq<byte>)
    requires c != '%' as int
    ensures Decode([c] + rest) == [if c == '+' as int then ' ' as int else c] + Decode(rest)
  {
    DecodeBehind([c], rest, 0, Idle);
  }

  /** '%' and two characters stand for the byte with these digits. */
  lemma DecodedThree(x: byte, y: byte, rest: seq<byte>)
    ensures Decode(['%' as int, x, y] + rest) == [16 * HexVal(x) + HexVal(y)] + Decode(rest)
  {
    var val: seq<byte> := ['%' as int, x, y] + rest;
    DecodeBehind(['%' as int, x, y], rest, 0, Idle);
    assert DecodeFrom(val, 2, Second(HexVal(x) * 16)) == [16 * HexVal(x) + HexVal(y)] + DecodeFrom(val, 3, Idle);
    assert DecodeFrom(val, 1, First) == [] + DecodeFrom(val, 2, Second(HexVal(x) * 16));
  }

  /** An escape that is cut off at the end stands for nothing. */
  lemma DecodedEnd(x: byte)
    ensures Decode([]) == [] && Decode(['%' as int]) == [] && Decode(['%' as int, x]) == []
  {
    var val: seq<byte> := ['%' as int, x];
    assert DecodeFrom(val, 2, Second(HexVal(x) * 16)) == [];
    assert DecodeFrom(val, 1, First) == [] + DecodeFrom(val, 2, Second(HexVal(x) * 16));
    assert DecodeFrom(['%' as int], 1, First) == [];
  }

  lemma {:induction false} EndIsOneOf(s: seq<byte>, size: nat, i: nat, j: nat)
    requires i <= |s| && j <= size
    ensures EndFrom(s, size, i, j) in {-1, size, j + |EncodeFrom(s, i)|}
    decreases |s| - i
  {
    if i < |s| && j < size && (!Escapes(s[i]) || j + 3 < size) {
      EndIsOneOf(s, size, i + 1, j + |EncodeByte(s[i])|);
    }
  }

  /** URLEncode returns the length of the whole encoding, the size it has filled, or 0. */
  lemma ReturnedOtherwise(s: seq<byte>, size: int)
    ensures Returned(s, size) in {0, size, |Encode(s)|}
    ensures s == [] || size <= 0 ==> Returned(s, size) == 0
  {
    if s != [] && size > 0 {
      EndIsOneOf(s, size, 0, 0);
    }
  }
}
