// Bytes of a stream or of a C string; C strings end at the first NUL.
module Bytes {
  type byte = x: int | 0 <= x < 256

  const NUL: byte := 0
  const LF: byte := 10
  const CR: byte := 13

  predicate CrlfAt(s: seq<byte>, i: nat) {
    i + 1 < |s| && s[i] == CR && s[i + 1] == LF
  }

  function Concat(pieces: seq<seq<byte>>): seq<byte> {
    if pieces == [] then [] else pieces[0] + Concat(pieces[1..])
  }

  /** `t` stands in `s` at position `i`. */
  predicate IsAt<T(==)>(s: seq<T>, i: nat, t: seq<T>) {
    i + |t| <= |s| && forall k {:trigger t[k]} :: 0 <= k < |t| ==> s[i + k] == t[k]
  }

  lemma IsAtSplit<T>(s: seq<T>, i: nat, a: seq<T>, b: seq<T>)
    requires IsAt(s, i, a + b)
    ensures IsAt(s, i, a) && IsAt(s, i + |a|, b)
  {
    forall k | 0 <= k < |a| ensures s[i + k] == a[k] {
      assert (a + b)[k] == a[k];
    }
    forall k | 0 <= k < |b| ensures s[i + |a| + k] == b[k] {
      assert (a + b)[|a| + k] == b[k];
    }
  }

  lemma Assoc<T>(a: seq<T>, b: seq<T>, c: seq<T>)
    ensures (a + b) + c == a + (b + c)
  {
  }
}
