/** Which strings come back when they are decoded and encoded again. */
module Utf8Canonical {
  import opened Bytes
  import opened Utf8Spec

  /** From i on, forms of the shortest length with continuation bytes 0x80 to 0xbf, then the NUL. */
  predicate Canonical(s: seq<byte>, i: nat)
    requires CString(s) && i < |s|
    decreases |s| - i
  {
    if s[i] == NUL then i == |s| - 1
    else
      var n := Umap(s[i]);
      && n >= 1 && i + n < |s|
      && (forall k :: i < k < i + n ==> 0x80 <= s[k] < 0xc0)
      && FormLength(Gather(s, i, n)) == n
      && Canonical(s, i + n)
  }

  /** The forms of the characters from index i on. */
  function FormsFrom(us: seq<nat>, i: nat): seq<byte>
    requires Characters(us)
    decreases |us| - i
  {
    if i >= |us| then [] else Form(us[i]) + FormsFrom(us, i + 1)
  }

  lemma {:induction false} FormsSplit(us: seq<nat>, i: nat)
    requires Characters(us) && i <= |us|
    ensures Forms(us, i) + FormsFrom(us, i) == FormsFrom(us, 0)
  {
    if i > 0 {
      FormsSplit(us, i - 1);
      var done, form, more := Forms(us, i - 1), Form(us[i - 1]), FormsFrom(us, i);
      assert FormsFrom(us, i - 1) == form + more;
      Assoc(done, form, more);
    }
  }

  lemma {:induction false} FormsAreAll(us: seq<nat>)
    requires Characters(us)
    ensures Forms(us, |us|) == FormsFrom(us, 0)
  {
    FormsSplit(us, |us|);
    assert Forms(us, |us|) + [] == Forms(us, |us|);
  }

  // ----- what the encoder writes is canonical -----

  lemma {:induction false} FormIsCanonical(s: seq<byte>, t: nat, uc: nat)
    requires 0 < uc < 0x8000_0000 && IsAt(s, t, Form(uc))
    ensures var n := FormLength(uc);
      && s[t] != NUL && Umap(s[t]) == n && Gather(s, t, n) == uc
      && forall k :: t < k < t + n ==> 0x80 <= s[k] < 0xc0
  {
    var n := FormLength(uc);
    GatherForm(s, t, uc, n);
    forall k | t < k < t + n ensures 0x80 <= s[k] < 0xc0 {
      assert s[t + (k - t)] == Form(uc)[k - t] == Continuations(uc, n - 1)[k - t - 1];
    }
    assert s[t + 0] == Form(uc)[0];
    if n == 1 {
      assert Gather(s, t, 1) == s[t] % 128;
    }
  }

  lemma {:induction false} FormsAreCanonical(s: seq<byte>, t: nat, us: seq<nat>, i: nat)
    requires Characters(us) && i <= |us| && CString(s)
    requires t + |FormsFrom(us, i)| == |s| - 1 && IsAt(s, t, FormsFrom(us, i))
    ensures Canonical(s, t)
    decreases |us| - i
  {
    if i < |us| {
      IsAtSplit(s, t, Form(us[i]), FormsFrom(us, i + 1));
      FormIsCanonical(s, t, us[i]);
      FormsAreCanonical(s, t + FormLength(us[i]), us, i + 1);
    }
  }

  // ----- what is canonical is written again -----

  lemma {:induction false} GatherShift(s: seq<byte>, t: nat, k: nat, n: nat)
    requires 1 <= k <= n && t + n <= |s| && Umap(s[t]) >= 1
    ensures ShiftRight(Gather(s, t, n), n - k) == Gather(s, t, k)
    decreases n
  {
    if k < n {
      assert Gather(s, t, n) / 64 == Gather(s, t, n - 1);
      GatherShift(s, t, k, n - 1);
    }
  }

  lemma {:induction false} LeadIs(b: byte)
    requires Umap(b) >= 1
    ensures b == LeadMark(Umap(b)) + b % LeadModulus(Umap(b))
  {
  }

  /** A form of n bytes as short as it can be, of the character uc. */
  predicate Shortest(s: seq<byte>, t: nat, n: nat, uc: nat) {
    && 1 <= n && t + n <= |s| && Umap(s[t]) == n
    && (forall k :: t < k < t + n ==> 0x80 <= s[k] < 0xc0)
    && uc == Gather(s, t, n) && FormLength(uc) == n
  }

  lemma {:induction false} LeadByte(s: seq<byte>, t: nat, n: nat, uc: nat)
    requires Shortest(s, t, n, uc) && uc < 0x8000_0000
    ensures s[t] == Form(uc)[0]
  {
    GatherShift(s, t, 1, n);
    LeadIs(s[t]);
  }

  lemma {:induction false} LowBits(high: nat, b: byte, c: byte)
    requires c % 64 == (high * 64 + b % 64) % 64 && 0x80 <= b < 0xc0 && 0x80 <= c < 0xc0
    ensures b == c
  {
  }

  lemma {:induction false} TailByte(s: seq<byte>, t: nat, n: nat, uc: nat, k: nat)
    requires Shortest(s, t, n, uc) && uc < 0x8000_0000 && 1 <= k < n
    ensures s[t + k] == Form(uc)[k]
  {
    GatherShift(s, t, k + 1, n);
    FormTail(uc, k);
    LowBits(Gather(s, t, k), s[t + k], Form(uc)[k]);
  }

  lemma {:induction false} FormTail(uc: nat, k: nat)
    requires uc < 0x8000_0000 && 1 <= k < FormLength(uc)
    ensures Form(uc)[k] % 64 == ShiftRight(uc, FormLength(uc) - 1 - k) % 64 && 0x80 <= Form(uc)[k] < 0xc0
  {
    FormByte(uc, k);
    assert Form(uc)[k] == Continuations(uc, FormLength(uc) - 1)[k - 1];
  }

  /** A shortest form is the form of its character. */
  lemma {:induction false} FormOfGather(s: seq<byte>, t: nat, n: nat, uc: nat)
    requires Shortest(s, t, n, uc)
    ensures uc < 0x8000_0000 && IsAt(s, t, Form(uc))
  {
    GatherBelow(s, t, n);
    BoundIsCapacity(n);
    forall k | 0 <= k < n ensures s[t + k] == Form(uc)[k] {
      if k == 0 {
        LeadByte(s, t, n, uc);
      } else {
        TailByte(s, t, n, uc, k);
      }
    }
  }

  lemma {:induction false} DecodeCharacters(s: seq<byte>, i: nat)
    requires CString(s) && i <= |s|
    ensures Characters(Decode(s, i).chars)
    decreases |s| - i
  {
    if i < |s| {
      GetAccounts(s, i);
      if Get(s, i).uc != 0 {
        DecodeCharacters(s, Get(s, i).next);
      }
    }
  }

  lemma {:induction false} FormsTail(u: nat, more: seq<nat>, i: nat)
    requires Characters([u] + more)
    ensures Characters(more) && FormsFrom([u] + more, i + 1) == FormsFrom(more, i)
    decreases |more| - i
  {
    assert forall k :: 0 <= k < |more| ==> ([u] + more)[k + 1] == more[k];
    if i < |more| {
      FormsTail(u, more, i + 1);
    }
  }

  lemma {:induction false} CanonicalStep(s: seq<byte>, i: nat) returns (uc: nat)
    requires CString(s) && i < |s| && Canonical(s, i) && s[i] != NUL
    ensures 0 < uc < 0x8000_0000 && IsAt(s, i, Form(uc)) && Umap(s[i]) == FormLength(uc)
    ensures Decode(s, i).chars == [uc] + Decode(s, i + FormLength(uc)).chars
  {
    var n := Umap(s[i]);
    uc := Gather(s, i, n);
    FormOfGather(s, i, n, uc);
    GetForm(s, i, uc);
    assert Get(s, i) == Got(uc, i + n, 0);
    assert n == 1 ==> uc == s[i] % 128;
  }

  lemma {:induction false} CanonicalComesBack(s: seq<byte>, i: nat, us: seq<nat>)
    requires CString(s) && i < |s| && Canonical(s, i) && us == Decode(s, i).chars
    ensures Characters(us) && IsAt(s, i, FormsFrom(us, 0)) && i + |FormsFrom(us, 0)| == |s| - 1
    decreases |s| - i
  {
    DecodeCharacters(s, i);
    if s[i] == NUL {
      assert Get(s, i).uc == 0;
    } else {
      var uc := CanonicalStep(s, i);
      var more := Decode(s, i + FormLength(uc)).chars;
      CanonicalComesBack(s, i + FormLength(uc), more);
      FirstForm(s, i, uc, more);
    }
  }

  lemma {:induction false} FirstForm(s: seq<byte>, i: nat, uc: nat, more: seq<nat>)
    requires Characters([uc] + more) && Characters(more) && uc < 0x8000_0000
    requires IsAt(s, i, Form(uc)) && IsAt(s, i + FormLength(uc), FormsFrom(more, 0))
    ensures IsAt(s, i, FormsFrom([uc] + more, 0))
    ensures |FormsFrom([uc] + more, 0)| == FormLength(uc) + |FormsFrom(more, 0)|
  {
    FormsTail(uc, more, 0);
    Joined(s, i, Form(uc), FormsFrom(more, 0));
  }

  lemma {:induction false} Joined(s: seq<byte>, i: nat, a: seq<byte>, b: seq<byte>)
    requires IsAt(s, i, a) && IsAt(s, i + |a|, b)
    ensures IsAt(s, i, a + b)
  {
    forall k | 0 <= k < |a + b| ensures s[i + k] == (a + b)[k] {
      if k >= |a| {
        assert s[i + |a| + (k - |a|)] == b[k - |a|];
      }
    }
  }

  /** A string is the encoding of what it decodes to if and only if it is canonical: no overlong
      form, no other byte in the place of a continuation byte, nothing skipped, no NUL inside. */
  lemma {:induction false} ComesBackIffCanonical(s: seq<byte>)
    requires CString(s)
    ensures Characters(Decode(s, 0).chars)
    ensures Forms(Decode(s, 0).chars, |Decode(s, 0).chars|) + [NUL] == s <==> Canonical(s, 0)
  {
    var us := Decode(s, 0).chars;
    DecodeCharacters(s, 0);
    FormsAreAll(us);
    if Canonical(s, 0) {
      CanonicalComesBack(s, 0, us);
      NulBehind(s, FormsFrom(us, 0));
    } else if FormsFrom(us, 0) + [NUL] == s {
      WrittenIsCanonical(s, us);
    }
  }

  lemma {:induction false} NulBehind(s: seq<byte>, forms: seq<byte>)
    requires CString(s) && IsAt(s, 0, forms) && |forms| == |s| - 1
    ensures forms + [NUL] == s
  {
    assert forall k :: 0 <= k < |forms| ==> s[0 + k] == forms[k];
  }

  lemma {:induction false} WrittenIsCanonical(s: seq<byte>, us: seq<nat>)
    requires Characters(us) && s == FormsFrom(us, 0) + [NUL]
    ensures CString(s) && Canonical(s, 0)
  {
    FormsAreCanonical(s, 0, us, 0);
  }

  /** An overlong zero ends the decoding in front of "A". */
  lemma {:induction false} ExampleOverlong()
    ensures Decode([0xc0, 0x80, 65, NUL], 0) == Decoded([], 0)
    ensures !Canonical([0xc0, 0x80, 65, NUL], 0)
  {
    var s: seq<byte> := [0xc0, 0x80, 65, NUL];
    assert Gather(s, 0, 1) == 0 && Gather(s, 0, 2) == 0;
    assert NextLead(s, 1) == 2 && NextLead(s, 0) == 0;
  }

  /** The byte 0xfe passes for the continuation byte 0xbe. */
  lemma {:induction false} ExampleFe()
    ensures Decode([0xc3, 0xfe, NUL], 0) == Decoded([254], 0) == Decode([0xc3, 0xbe, NUL], 0)
    ensures !Canonical([0xc3, 0xfe, NUL], 0) && Canonical([0xc3, 0xbe, NUL], 0)
  {
    var s: seq<byte> := [0xc3, 0xfe, NUL];
    var t: seq<byte> := [0xc3, 0xbe, NUL];
    assert Gather(s, 0, 1) == 3 && Gather(s, 0, 2) == 254 && NextLead(s, 1) == 2 && NextLead(s, 0) == 0;
    assert Gather(t, 0, 1) == 3 && Gather(t, 0, 2) == 254 && NextLead(t, 1) == 2 && NextLead(t, 0) == 0;
    assert Get(s, 2) == Got(0, 3, 0) && Get(t, 2) == Got(0, 3, 0);
    assert s[1] == 0xfe;
  }
}
