/** The framing of esp_request.c for data sent over a WebSocket (sections 5.2 and 5.3 of
    RFC 6455): ws_esc builds a masked binary frame, ws_unesc reads one.  The bit operations on
    octets are written with division and remainder. */
module WebSocket {
  import opened Bytes

  const FIN_BINARY: byte := 0x82   // WS_OPCODE_BINARY | WS_FIN
  const MASK_BIT: byte := 0x80     // WS_MASK
  const SIZE16: byte := 126        // WS_SIZE16
  const SIZE64: byte := 127        // WS_SIZE64
  const MAX_HEADER: nat := 10      // MAX_WEBSOCKET_HEADER_SIZE

  /** Exclusive or, bit by bit. */
  function Xor(a: nat, b: nat): nat
    decreases a + b
  {
    if a == 0 && b == 0 then 0 else (a % 2 + b % 2) % 2 + 2 * Xor(a / 2, b / 2)
  }

  predicate Bit(a: nat, n: nat) {
    if n == 0 then a % 2 == 1 else Bit(a / 2, n - 1)
  }

  lemma {:induction false} XorBits(a: nat, b: nat, n: nat)
    ensures Bit(Xor(a, b), n) <==> Bit(a, n) != Bit(b, n)
  {
    if n > 0 {
      XorBits(a / 2, b / 2, n - 1);
    }
  }

  lemma {:induction false} XorTwice(a: nat, b: nat)
    ensures Xor(Xor(a, b), b) == a
    decreases a + b
  {
    if a != 0 || b != 0 {
      XorTwice(a / 2, b / 2);
    }
  }

  function Pow2(n: nat): nat {
    if n == 0 then 1 else 2 * Pow2(n - 1)
  }

  lemma {:induction false} XorBelow(a: nat, b: nat, n: nat)
    requires a < Pow2(n) && b < Pow2(n)
    ensures Xor(a, b) < Pow2(n)
  {
    if n > 0 {
      XorBelow(a / 2, b / 2, n - 1);
    }
  }

  function XorByte(a: byte, b: byte): byte {
    assert Pow2(8) == 256;
    XorBelow(a, b, 8);
    Xor(a, b)
  }

  /** One octet of the payload under the mask; masking and unmasking are the same. */
  function Masked(p: seq<byte>, mask: seq<byte>): (r: seq<byte>)
    requires |mask| == 4
  {
    seq(|p|, i requires 0 <= i < |p| => XorByte(p[i], mask[i % 4]))
  }

  /** Octet j is masked with octet j modulo 4 of the mask, bit by bit (section 5.3 of RFC 6455). */
  lemma MaskedBits(p: seq<byte>, mask: seq<byte>, j: nat, n: nat)
    requires |mask| == 4 && j < |p|
    ensures |Masked(p, mask)| == |p|
    ensures Bit(Masked(p, mask)[j], n) <==> Bit(p[j], n) != Bit(mask[j % 4], n)
  {
    XorBits(p[j], mask[j % 4], n);
  }

  lemma MaskedTwice(p: seq<byte>, mask: seq<byte>, n: nat)
    requires |mask| == 4 && n <= |p|
    ensures Masked(Masked(p, mask)[..n], mask) == p[..n]
  {
    forall i | 0 <= i < n ensures Masked(Masked(p, mask)[..n], mask)[i] == p[i] {
      XorTwice(p[i], mask[i % 4]);
    }
  }

  /** The octets of the length: only its low 16 bits when it is above 125. */
  function LengthOctets(n: nat): seq<byte> {
    if n > 125 then [SIZE16 + MASK_BIT, n / 256 % 256, n % 256] else [n + MASK_BIT]
  }

  function Frame(p: seq<byte>, mask: seq<byte>): seq<byte>
    requires |mask| == 4
  {
    [FIN_BINARY] + LengthOctets(|p|) + mask + Masked(p, mask)
  }

  /** The header part of ws_esc. */
  method PutHeader(data: array<byte>, len: nat, mask: seq<byte>) returns (headerLen: nat)
    requires |mask| == 4 && data.Length == len + MAX_HEADER
    modifies data
    ensures headerLen <= 8 && data[..headerLen] == [FIN_BINARY] + LengthOctets(len) + mask
  {
    data[0] := FIN_BINARY;
    headerLen := 1;
    if len > 125 {
      data[1], data[2], data[3] := SIZE16 + MASK_BIT, len / 256 % 256, len % 256;
      headerLen := 4;
    } else {
      data[1] := len + MASK_BIT;
      headerLen := 2;
    }
    forall k | 0 <= k < 4 {
      data[headerLen + k] := mask[k];
    }
    headerLen := headerLen + 4;
  }

  /** ws_esc, with the four random octets of the mask */
  method WsEsc(buffer: array<byte>, mask: seq<byte>) returns (data: array<byte>, outlen: nat)
    requires |mask| == 4
    ensures fresh(data) && outlen <= data.Length && data[..outlen] == Frame(buffer[..], mask)
  {
    var len := buffer.Length;
    data := new byte[len + MAX_HEADER];
    var headerLen := PutHeader(data, len, mask);
    ghost var header := data[..headerLen];
    for i := 0 to len
      invariant headerLen + len <= data.Length
      invariant data[..headerLen] == header
      invariant forall k :: 0 <= k < i ==> data[headerLen + k] == XorByte(buffer[k], mask[k % 4])
    {
      data[headerLen + i] := XorByte(buffer[i], mask[i % 4]);
    }
    outlen := headerLen + len;
    assert data[headerLen..outlen] == Masked(buffer[..], mask);
    assert data[..outlen] == data[..headerLen] + data[headerLen..outlen];
  }

  /** (f[1] >> 7) & 1 */
  predicate IsMasked(f: seq<byte>)
    requires |f| >= 2
  {
    f[1] >= MASK_BIT
  }

  /** f[1] & 0x7F */
  function ShortLength(f: seq<byte>): nat
    requires |f| >= 2
  {
    f[1] % 128
  }

  /** Octets before the mask or the data. */
  function LengthEnd(f: seq<byte>): nat
    requires |f| >= 2
  {
    if ShortLength(f) == SIZE16 then 4 else if ShortLength(f) == SIZE64 then 10 else 2
  }

  function Word(a: nat, b: nat): nat {
    a * 256 + b
  }

  /** A 32-bit pattern as an int. */
  function Signed(n: nat): int {
    if n < 0x8000_0000 then n else n - 0x1_0000_0000
  }

  /** The payload length ws_unesc finds; -1 for one above 32 bits. */
  function Declared(f: seq<byte>): int
    requires |f| >= 2 && LengthEnd(f) <= |f|
  {
    if ShortLength(f) == SIZE16 then Word(f[2], f[3])
    else if ShortLength(f) == SIZE64 then
      if f[2] != 0 || f[3] != 0 || f[4] != 0 || f[5] != 0 then -1
      else Signed(Word(Word(Word(f[6], f[7]), f[8]), f[9]))
    else ShortLength(f)
  }

  function DataStart(f: seq<byte>): nat
    requires |f| >= 2
  {
    LengthEnd(f) + if IsMasked(f) then 4 else 0
  }

  /** All that ws_unesc looks at is there; without a mask a negative length has no meaning. */
  predicate Whole(f: seq<byte>) {
    && |f| >= 2 && DataStart(f) <= |f|
    && DataStart(f) + Declared(f) <= |f| && (Declared(f) >= 0 || IsMasked(f))
  }

  function Payload(f: seq<byte>): seq<byte>
    requires Whole(f)
  {
    var start := DataStart(f);
    if Declared(f) <= 0 then []
    else if IsMasked(f) then Masked(f[start..start + Declared(f)], f[start - 4..start])
    else f[start..start + Declared(f)]
  }

  /** The header part of ws_unesc: the declared length and where the mask or the data starts. */
  method ReadHeader(wsBuffer: array<byte>) returns (masked: bool, payloadLen: int, at: nat)
    requires wsBuffer.Length >= 2 && LengthEnd(wsBuffer[..]) <= wsBuffer.Length
    ensures masked == IsMasked(wsBuffer[..])
    ensures payloadLen == Declared(wsBuffer[..]) && at == LengthEnd(wsBuffer[..])
  {
    masked, payloadLen, at := wsBuffer[1] / 128 % 2 == 1, wsBuffer[1] % 128, 2;
    if payloadLen == 126 {
      payloadLen := Word(wsBuffer[2], wsBuffer[3]);
      at := 4;
    } else if payloadLen == 127 {
      if wsBuffer[2] != 0 || wsBuffer[3] != 0 || wsBuffer[4] != 0 || wsBuffer[5] != 0 {
        payloadLen := -1;
      } else {
        payloadLen := Signed(Word(Word(Word(wsBuffer[6], wsBuffer[7]), wsBuffer[8]), wsBuffer[9]));
      }
      at := 10;
    }
  }

  /** The copying part of ws_unesc. */
  method ReadPayload(wsBuffer: array<byte>, buffer: array<byte>, masked: bool, at: nat, n: nat)
    requires buffer != wsBuffer && n <= buffer.Length
    requires at + (if masked then 4 else 0) + n <= wsBuffer.Length
    modifies buffer
    ensures masked ==> buffer[..n] == Masked(wsBuffer[at + 4..at + 4 + n], wsBuffer[at..at + 4])
    ensures !masked ==> buffer[..n] == wsBuffer[at..at + n]
    ensures forall k :: n <= k < buffer.Length ==> buffer[k] == old(buffer[k])
  {
    if masked {
      for i := 0 to n
        invariant forall k :: 0 <= k < i ==> buffer[k] == XorByte(wsBuffer[at + 4 + k], wsBuffer[at + k % 4])
        invariant forall k :: i <= k < buffer.Length ==> buffer[k] == old(buffer[k])
      {
        buffer[i] := XorByte(wsBuffer[at + 4 + i], wsBuffer[at + i % 4]);
      }
    } else {
      forall k | 0 <= k < n {
        buffer[k] := wsBuffer[at + k];
      }
    }
  }

  /** ws_unesc of the len octets read into wsBuffer */
  method WsUnesc(wsBuffer: array<byte>, buffer: array<byte>, len: int) returns (payloadLen: int)
    requires len > 0 ==> Whole(wsBuffer[..]) && Declared(wsBuffer[..]) <= buffer.Length
    requires buffer != wsBuffer
    modifies buffer
    ensures payloadLen == if len <= 0 then -1 else Declared(wsBuffer[..])
    ensures payloadLen >= 0 ==> payloadLen <= buffer.Length && buffer[..payloadLen] == Payload(wsBuffer[..])
    ensures forall k :: 0 <= k < buffer.Length && payloadLen <= k ==> buffer[k] == old(buffer[k])
  {
    if len <= 0 {
      return -1;
    }
    var masked, at;
    masked, payloadLen, at := ReadHeader(wsBuffer);
    if payloadLen > 0 {
      ReadPayload(wsBuffer, buffer, masked, at, payloadLen);
    }
  }

  lemma LengthIsRead(f: seq<byte>, n: nat)
    requires IsAt(f, 1, LengthOctets(n))
    ensures IsMasked(f) && LengthEnd(f) == 1 + |LengthOctets(n)| && Declared(f) == n % 65536
  {
    var l := LengthOctets(n);
    assert f[1] == l[0];
    if n > 125 {
      assert f[2] == l[1] && f[3] == l[2];
    }
  }

  lemma FrameShape(p: seq<byte>, mask: seq<byte>)
    requires |mask| == 4
    ensures var f, l := Frame(p, mask), |LengthOctets(|p|)|;
      && |f| == 5 + l + |p| && IsAt(f, 1, LengthOctets(|p|))
      && f[1 + l..5 + l] == mask && f[5 + l..] == Masked(p, mask)
  {
  }

  lemma Unmasks(f: seq<byte>, start: nat, n: nat, p: seq<byte>, mask: seq<byte>)
    requires |mask| == 4 && n <= |p| && 4 <= start <= |f|
    requires f[start - 4..start] == mask && f[start..] == Masked(p, mask)
    ensures Masked(f[start..start + n], f[start - 4..start]) == p[..n]
  {
    assert f[start..start + n] == f[start..][..n];
    MaskedTwice(p, mask, n);
  }

  /** Reading a frame gives back the payload, cut to its length modulo 65536. */
  lemma UnescEsc(p: seq<byte>, mask: seq<byte>)
    requires |mask| == 4
    ensures Whole(Frame(p, mask)) && Declared(Frame(p, mask)) == |p| % 65536
    ensures Payload(Frame(p, mask)) == p[..|p| % 65536]
  {
    var f := Frame(p, mask);
    FrameShape(p, mask);
    LengthIsRead(f, |p|);
    Unmasks(f, DataStart(f), |p| % 65536, p, mask);
  }

  /** So a payload survives exactly when it is shorter than 65536 octets. */
  lemma RoundTripIff(p: seq<byte>, mask: seq<byte>)
    requires |mask| == 4
    ensures Whole(Frame(p, mask))
    ensures Payload(Frame(p, mask)) == p <==> |p| < 65536
    ensures |Frame(p, mask)| == |p| + if |p| <= 125 then 6 else 8
  {
    UnescEsc(p, mask);
    FrameShape(p, mask);
    if |p| < 65536 {
      assert |p| % 65536 == |p| && p[..|p|] == p;
    } else {
      assert |p| % 65536 < |p|;
    }
  }

  const TOO_LONG: seq<byte> := seq(65536, i => 65)

  /** One octet too many, and nothing is left of the payload. */
  lemma {:induction false} ExampleTooLong(mask: seq<byte>)
    requires |mask| == 4
    ensures Whole(Frame(TOO_LONG, mask)) && Payload(Frame(TOO_LONG, mask)) == []
  {
    UnescEsc(TOO_LONG, mask);
  }

  /** What is behind a whole frame in the buffer does not matter. */
  lemma {:induction false} BehindTheFrame(f: seq<byte>, more: seq<byte>)
    requires Whole(f)
    ensures Whole(f + more) && Declared(f + more) == Declared(f) && Payload(f + more) == Payload(f)
  {
    var all, start := f + more, DataStart(f);
    assert forall k :: 0 <= k < |f| ==> all[k] == f[k];
    assert DataStart(all) == start && Declared(all) == Declared(f);
    if Declared(f) > 0 {
      assert all[start..start + Declared(f)] == f[start..start + Declared(f)];
      if IsMasked(f) {
        assert all[start - 4..start] == f[start - 4..start];
      }
    }
  }

  /** A payload framed and read on real buffers. */
  method ThereAndBack(buffer: array<byte>, mask: seq<byte>) returns (back: array<byte>, n: int)
    requires |mask| == 4
    ensures fresh(back) && n == buffer.Length % 65536 <= back.Length && back[..n] == buffer[..n]
  {
    var data, len := WsEsc(buffer, mask);
    back := new byte[buffer.Length];
    UnescEsc(buffer[..], mask);
    BehindTheFrame(data[..len], data[len..]);
    assert data[..] == data[..len] + data[len..];
    FrameShape(buffer[..], mask);
    n := WsUnesc(data, back, len);
    assert buffer[..][..n] == buffer[..n];
  }

  // ----- frames as the other side writes them (section 5.2 of RFC 6455) -----

  /** Four octets, most significant first. */
  function Octets4(n: nat): seq<byte>
    requires n < 0x1_0000_0000
  {
    [n / 0x100_0000, n / 0x1_0000 % 256, n / 256 % 256, n % 256]
  }

  /** The octets of the length in the shortest form, the first of them with the mask bit. */
  function SizeOctets(n: nat, maskBit: nat): seq<byte>
    requires n < 0x8000_0000 && maskBit in {0, 128}
  {
    if n <= 125 then [maskBit + n]
    else if n < 65536 then [maskBit + 126, n / 256, n % 256]
    else [maskBit + 127, 0, 0, 0, 0] + Octets4(n)
  }

  /** A frame without a mask, as a server writes it. */
  function PlainFrame(first: byte, p: seq<byte>): seq<byte>
    requires |p| < 0x8000_0000
  {
    [first] + SizeOctets(|p|, 0) + p
  }

  function MaskedFrame(first: byte, p: seq<byte>, mask: seq<byte>): seq<byte>
    requires |p| < 0x8000_0000 && |mask| == 4
  {
    [first] + SizeOctets(|p|, 128) + mask + Masked(p, mask)
  }

  lemma Octets4Value(n: nat)
    requires n < 0x1_0000_0000
    ensures var o := Octets4(n); Word(Word(Word(o[0], o[1]), o[2]), o[3]) == n
  {
    var a, b := n / 256, n / 0x1_0000;
    assert a / 256 == b && b / 256 == n / 0x100_0000;
    assert n == 256 * a + n % 256 && a == 256 * b + a % 256 && b == 256 * (b / 256) + b % 256;
  }

  lemma SizeIsRead(f: seq<byte>, n: nat, maskBit: nat)
    requires n < 0x8000_0000 && maskBit in {0, 128} && IsAt(f, 1, SizeOctets(n, maskBit))
    ensures IsMasked(f) <==> maskBit == 128
    ensures LengthEnd(f) == 1 + |SizeOctets(n, maskBit)| && Declared(f) == n
  {
    var o := SizeOctets(n, maskBit);
    assert f[1] == o[0];
    if n > 125 {
      assert f[2] == o[1] && f[3] == o[2];
    }
    if n >= 65536 {
      Octets4Value(n);
      var four := Octets4(n);
      assert f[4] == o[3] && f[5] == o[4];
      assert f[6] == o[5] == four[0] && f[7] == o[6] == four[1] && f[8] == o[7] == four[2] && f[9] == o[8] == four[3];
    }
  }

  /** Every frame without a mask gives its payload. */
  lemma PlainFrameIsRead(first: byte, p: seq<byte>)
    requires |p| < 0x8000_0000
    ensures var f := PlainFrame(first, p); Whole(f) && Declared(f) == |p| && Payload(f) == p
  {
    var f, l := PlainFrame(first, p), |SizeOctets(|p|, 0)|;
    SizeIsRead(f, |p|, 0);
    assert f[1 + l..1 + l + |p|] == p;
  }

  /** So does every frame with a mask. */
  lemma MaskedFrameIsRead(first: byte, p: seq<byte>, mask: seq<byte>)
    requires |p| < 0x8000_0000 && |mask| == 4
    ensures var f := MaskedFrame(first, p, mask); Whole(f) && Declared(f) == |p| && Payload(f) == p
  {
    var f, l := MaskedFrame(first, p, mask), |SizeOctets(|p|, 128)|;
    SizeIsRead(f, |p|, 128);
    assert f[1 + l..5 + l] == mask && f[5 + l..] == Masked(p, mask);
    Unmasks(f, DataStart(f), |p|, p, mask);
    assert p[..|p|] == p;
  }

  lemma ZeroWord(o: seq<byte>, n: nat)
    requires |o| == 4 && n == Word(Word(Word(o[0], o[1]), o[2]), o[3])
    ensures o == [0, 0, 0, 0] <==> n == 0
  {
  }

  lemma LongForm(f: seq<byte>, high: seq<byte>, low: seq<byte>, n: nat)
    requires |f| >= 10 && f[1] in {127, 255} && |high| == |low| == 4 && f[2..6] == high && f[6..10] == low
    requires n == Word(Word(Word(low[0], low[1]), low[2]), low[3])
    ensures Declared(f) == if high != [0, 0, 0, 0] then -1 else if n < 0x8000_0000 then n else n - 0x1_0000_0000
  {
    assert f[2] == high[0] && f[3] == high[1] && f[4] == high[2] && f[5] == high[3];
    assert f[6] == low[0] && f[7] == low[1] && f[8] == low[2] && f[9] == low[3];
  }

  /** A length of 2^31 or more is taken for a negative one, and one above 32 bits for -1. */
  lemma LongLength(f: seq<byte>, high: nat, low: nat)
    requires high < 0x1_0000_0000 && low < 0x1_0000_0000 && |f| >= 10
    requires f[1] in {127, 255} && f[2..6] == Octets4(high) && f[6..10] == Octets4(low)
    ensures Declared(f) == if high != 0 then -1 else if low < 0x8000_0000 then low else low - 0x1_0000_0000
  {
    Octets4Value(high);
    ZeroWord(Octets4(high), high);
    Octets4Value(low);
    LongForm(f, Octets4(high), Octets4(low), low);
  }

  /** What ws_esc writes is the masked binary frame of the payload. */
  lemma FrameIsStandard(p: seq<byte>, mask: seq<byte>)
    requires |mask| == 4 && |p| < 65536
    ensures Frame(p, mask) == MaskedFrame(0x82, p, mask)
  {
  }

  /** A frame of a server in the receive buffer, and whatever is behind it. */
  method ReadPlain(wsBuffer: array<byte>, buffer: array<byte>, len: nat,
                   ghost first: byte, ghost p: seq<byte>, ghost more: seq<byte>)
    returns (n: int)
    requires |p| < 0x8000_0000 && wsBuffer[..] == PlainFrame(first, p) + more
    requires 0 < len && |p| <= buffer.Length && buffer != wsBuffer
    modifies buffer
    ensures n == |p| && buffer[..n] == p
  {
    PlainFrameIsRead(first, p);
    BehindTheFrame(PlainFrame(first, p), more);
    n := WsUnesc(wsBuffer, buffer, len);
  }

  method ReadMasked(wsBuffer: array<byte>, buffer: array<byte>, len: nat,
                    ghost first: byte, ghost p: seq<byte>, ghost mask: seq<byte>, ghost more: seq<byte>)
    returns (n: int)
    requires |p| < 0x8000_0000 && |mask| == 4 && wsBuffer[..] == MaskedFrame(first, p, mask) + more
    requires 0 < len && |p| <= buffer.Length && buffer != wsBuffer
    modifies buffer
    ensures n == |p| && buffer[..n] == p
  {
    MaskedFrameIsRead(first, p, mask);
    BehindTheFrame(MaskedFrame(first, p, mask), more);
    n := WsUnesc(wsBuffer, buffer, len);
  }
}
