/** The chunked transfer coding of section 4.1 of RFC 7230, as a recipient reads it. */
module ChunkedCoding {
  import opened Options
  import opened Bytes

  const CRLF: seq<byte> := [CR, LF]
  const LAST_CHUNK: seq<byte> := [48] + CRLF + CRLF   // "0\r\n\r\n"

  function HexDigit(b: byte): Option<nat> {
    if 48 <= b <= 57 then Some(b - 48)
    else if 65 <= b <= 70 then Some(b - 55)
    else if 97 <= b <= 102 then Some(b - 87)
    else None
  }

  /** chunk-size: the value of the leading digits from `i`, and where they end. */
  function SizeFrom(s: seq<byte>, i: nat, value: nat): (r: (nat, nat))
    ensures i <= |s| ==> i <= r.1 <= |s|
    decreases |s| - i
  {
    if i >= |s| || HexDigit(s[i]).None? then (value, i)
    else SizeFrom(s, i + 1, 16 * value + HexDigit(s[i]).value)
  }

  /** chunked-body without trailers, from `i` to the end of `s`; None when malformed. */
  function DecodeFrom(s: seq<byte>, i: nat): Option<seq<byte>>
    requires i <= |s|
    decreases |s| - i
  {
    var (size, at) := SizeFrom(s, i, 0);
    if at == i || !IsAt(s, at, CRLF) then None
    else
      var start := at + 2;
      if size == 0 then (if s[start..] == CRLF then Some([]) else None)
      else if !IsAt(s, start + size, CRLF) then None
      else
        var rest := DecodeFrom(s, start + size + 2);
        if rest.None? then None else Some(s[start..start + size] + rest.value)
  }

  // ----- the form the server writes -----

  function HexNibble(v: int): byte {
    var n := v % 16;
    if n < 10 then 48 + n else 55 + n
  }

  /** The four-digit size of a chunk header, of the low 16 bits of `v`. */
  function Hex4(v: int): seq<byte> {
    [HexNibble(v / 4096), HexNibble(v / 256), HexNibble(v / 16), HexNibble(v)]
  }

  function Chunk(data: seq<byte>): seq<byte> {
    Hex4(|data|) + CRLF + data + CRLF
  }

  /** Blocks of data in the order they were sent. */
  datatype Blocks = Empty | Snoc(init: Blocks, last: seq<byte>)

  function Chunks(blocks: Blocks): seq<byte> {
    match blocks case Empty => [] case Snoc(init, last) => Chunks(init) + Chunk(last)
  }

  function Flatten(blocks: Blocks): seq<byte> {
    match blocks case Empty => [] case Snoc(init, last) => Flatten(init) + last
  }

  /** Each block is one that a four-digit, non-zero size can announce. */
  predicate Sizes(blocks: Blocks) {
    match blocks case Empty => true case Snoc(init, last) => Sizes(init) && 0 < |last| < 65536
  }

  lemma Hex4Value(v: nat)
    requires v < 65536
    ensures forall k :: 0 <= k < 4 ==> HexDigit(Hex4(v)[k]).Some?
    ensures 16 * (16 * (16 * HexDigit(Hex4(v)[0]).value + HexDigit(Hex4(v)[1]).value)
                  + HexDigit(Hex4(v)[2]).value) + HexDigit(Hex4(v)[3]).value == v
  {
    var a, b, c := v / 16, v / 256, v / 4096;
    assert a / 16 == b && b / 16 == c && c % 16 == c;
    assert v == 16 * a + v % 16 && a == 16 * b + a % 16 && b == 16 * c + b % 16;
  }

  /** A four-digit header followed by CRLF reads back as its value. */
  lemma SizeOfHeader(s: seq<byte>, i: nat, v: nat)
    requires v < 65536 && IsAt(s, i, Hex4(v)) && IsAt(s, i + 4, CRLF)
    ensures SizeFrom(s, i, 0) == (v, i + 4)
  {
    Hex4Value(v);
    var h := Hex4(v);
    assert s[i + 0] == h[0] && s[i + 1] == h[1] && s[i + 2] == h[2] && s[i + 3] == h[3];
    assert s[i + 4 + 0] == CRLF[0];
    var v1 := HexDigit(h[0]).value;
    var v2 := 16 * v1 + HexDigit(h[1]).value;
    var v3 := 16 * v2 + HexDigit(h[2]).value;
    assert SizeFrom(s, i, 0) == SizeFrom(s, i + 1, v1);
    assert SizeFrom(s, i + 1, v1) == SizeFrom(s, i + 2, v2);
    assert SizeFrom(s, i + 2, v2) == SizeFrom(s, i + 3, v3);
    assert SizeFrom(s, i + 3, v3) == SizeFrom(s, i + 4, v);
  }

  /** Decoding at a chunk yields its data and goes on behind it. */
  lemma DecodeChunk(s: seq<byte>, i: nat, data: seq<byte>)
    requires 0 < |data| < 65536 && IsAt(s, i, Chunk(data))
    ensures var next := i + |data| + 8;
            next <= |s| && DecodeFrom(s, i) == Prefixed(data, DecodeFrom(s, next))
  {
    var n := |data|;
    IsAtSplit(s, i, Hex4(n) + CRLF + data, CRLF);
    IsAtSplit(s, i, Hex4(n) + CRLF, data);
    IsAtSplit(s, i, Hex4(n), CRLF);
    SizeOfHeader(s, i, n);
    assert s[i + 6..i + 6 + n] == data;
  }

  lemma DecodeLast(s: seq<byte>, i: nat)
    requires i <= |s| && s[i..] == LAST_CHUNK
    ensures DecodeFrom(s, i) == Some([])
  {
    var t := s[i..];
    assert forall k :: 0 <= k < 5 ==> s[i + k] == t[k] == LAST_CHUNK[k];
    assert SizeFrom(s, i, 0) == SizeFrom(s, i + 1, 0) == (0, i + 1);
    assert s[i + 1..i + 3] == CRLF;
    assert s[i + 3..] == CRLF;
  }

  /** What the recipient has after `data`, when the rest decodes to `rest`. */
  function Prefixed(data: seq<byte>, rest: Option<seq<byte>>): Option<seq<byte>> {
    if rest.None? then None else Some(data + rest.value)
  }

  lemma PrefixedTwice(a: seq<byte>, b: seq<byte>, rest: Option<seq<byte>>)
    ensures Prefixed(a, Prefixed(b, rest)) == Prefixed(a + b, rest) && Prefixed([], rest) == rest
  {
    if rest.Some? {
      assert a + (b + rest.value) == (a + b) + rest.value;
      assert [] + rest.value == rest.value;
    }
  }

  lemma ChunkLength(init: Blocks, last: seq<byte>)
    requires |last| < 65536
    ensures |Chunks(Snoc(init, last))| == |Chunks(init)| + |last| + 8
  {
  }

  /** Behind whole chunks the recipient has their data and reads on. */
  lemma {:induction false} DecodePrefix(s: seq<byte>, blocks: Blocks)
    requires Sizes(blocks) && IsAt(s, 0, Chunks(blocks))
    ensures DecodeFrom(s, 0) == Prefixed(Flatten(blocks), DecodeFrom(s, |Chunks(blocks)|))
  {
    match blocks
    case Empty => PrefixedTwice([], [], DecodeFrom(s, 0));
    case Snoc(init, last) =>
      IsAtSplit(s, 0, Chunks(init), Chunk(last));
      ChunkLength(init, last);
      DecodePrefix(s, init);
      DecodeChunk(s, |Chunks(init)|, last);
      PrefixedTwice(Flatten(init), last, DecodeFrom(s, |Chunks(blocks)|));
  }

  /** The recipient of whole chunks and one last chunk gets exactly their data. */
  lemma DecodesToData(blocks: Blocks)
    requires Sizes(blocks)
    ensures DecodeFrom(Chunks(blocks) + LAST_CHUNK, 0) == Some(Flatten(blocks))
  {
    var s := Chunks(blocks) + LAST_CHUNK;
    assert s[0..|Chunks(blocks)|] == Chunks(blocks);
    DecodePrefix(s, blocks);
    DecodeLast(s, |Chunks(blocks)|);
    assert Flatten(blocks) + [] == Flatten(blocks);
  }
}
