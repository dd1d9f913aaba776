/** utf8.c: the reader and the writer of single characters, and the string decoder and encoder. */
module Utf8 {
  import opened Bytes
  import opened Utf8Spec

  /** One pass from repeat_label: gathers a character, or stops at a lead byte in its middle. */
  method Attempt(str: seq<byte>, t: nat) returns (uc: nat, s: nat, broken: bool)
    requires CString(str) && t < |str| && Umap(str[t]) != 0
    ensures broken ==> t < s < |str| && Umap(str[t]) > 1 && s == NextLead(str, t + 1) < t + Umap(str[t])
    ensures !broken ==> GetAt(str, t) == Got(uc, s, 0)
  {
    var byteNum := Umap(str[t]);
    uc := str[t] % LeadModulus(byteNum);
    s := t + 1;
    var i := 1;
    while i < byteNum
      invariant 1 <= i <= byteNum && s == t + i <= |str| && (byteNum > 1 ==> s < |str|)
      invariant byteNum > 1 ==> NextLead(str, t + 1) == NextLead(str, s)
      invariant uc == Gather(str, t, i)
    {
      if Umap(str[s]) != 0 {
        return uc, s, true;
      }
      uc := uc * 64 + str[s] % 64;
      s := s + 1;
      i := i + 1;
    }
    broken := false;
  }

  /** getu8c: the next character from `pos` on, where reading stops, and the bytes skipped.
      `byte & mask` is written as a modulus, since the masks keep the low bits. */
  method GetU8c(str: seq<byte>, pos: nat) returns (uc: nat, next: nat, illegal: nat)
    requires CString(str) && pos < |str|
    ensures Got(uc, next, illegal) == Get(str, pos)
  {
    var s := pos;
    illegal := 0;
    while Umap(str[s]) == 0
      invariant pos <= s < |str| && illegal == s - pos
      invariant NextLead(str, pos) == NextLead(str, s)
      decreases |str| - s
    {
      s := s + 1;
      illegal := illegal + 1;
    }
    var broken := true;
    uc, next := 0, s;
    while broken
      invariant broken ==> s < |str| && Umap(str[s]) != 0
      invariant broken ==> Get(str, pos) == GetAt(str, s).(illegal := illegal + GetAt(str, s).illegal)
      invariant !broken ==> Get(str, pos) == Got(uc, next, illegal)
      decreases broken, |str| - s
    {
      uc, next, broken := Attempt(str, s);
      if broken {
        illegal := illegal + (next - s);
        s := next;
      }
    }
  }

  /** Where the reading stands after `k` reads, and the bytes they skipped. */
  function Reads(s: seq<byte>, k: nat): (r: (nat, nat))
    requires CString(s)
    ensures r.0 <= |s|
  {
    if k == 0 then (0, 0)
    else
      var (pos, skipped) := Reads(s, k - 1);
      if pos == |s| then (pos, skipped) else (Get(s, pos).next, skipped + Get(s, pos).illegal)
  }

  /** What one read of a character does to the decoding that is left. */
  lemma {:induction false} ReadOne(s: seq<byte>, i: nat, g: Got)
    requires CString(s) && i < |s| && Get(s, i) == g && g.uc != 0
    ensures g.next < |s|
    ensures Decode(s, i) == Decoded([g.uc] + Decode(s, g.next).chars, g.illegal + Decode(s, g.next).illegal)
  {
    EndIsNul(s, NextLead(s, i));
  }

  /** The `k` reads have found the first `k` characters, and the rest decodes to the others. */
  lemma {:induction false} ReadsDecode(s: seq<byte>, k: nat)
    requires CString(s) && k <= |Decode(s, 0).chars|
    ensures var (pos, skipped) := Reads(s, k);
            && pos < |s|
            && Decode(s, 0).chars[k..] == Decode(s, pos).chars
            && Decode(s, 0).illegal == skipped + Decode(s, pos).illegal
  {
    if k > 0 {
      ReadsDecode(s, k - 1);
      var pos := Reads(s, k - 1).0;
      ReadOne(s, pos, Get(s, pos));
      assert Decode(s, 0).chars[k..] == Decode(s, 0).chars[k - 1..][1..];
    }
  }

  /** The read after `count` others, not yet at the end. */
  lemma {:induction false} NextChar(s: seq<byte>, count: nat, pos: nat, g: Got)
    requires CString(s) && count <= |Decode(s, 0).chars| && Reads(s, count).0 == pos < |s|
    requires Get(s, pos) == g && g.uc != 0
    ensures count < |Decode(s, 0).chars| && Decode(s, 0).chars[count] == g.uc
    ensures Reads(s, count + 1) == (g.next, Reads(s, count).1 + g.illegal) && g.next < |s|
  {
    ReadsDecode(s, count);
    ReadOne(s, pos, g);
    FirstOfRest(Decode(s, 0).chars, count, g.uc, Decode(s, g.next).chars);
  }

  lemma {:induction false} FirstOfRest(chars: seq<nat>, count: nat, uc: nat, more: seq<nat>)
    requires count <= |chars| && chars[count..] == [uc] + more
    ensures count < |chars| && chars[count] == uc
  {
    assert |chars[count..]| > 0;
    assert chars[count..][0] == uc;
  }

  function Min(a: nat, b: nat): nat { if a < b then a else b }

  /** des[count] = uc */
  method Store(des: array<int>, count: nat, uc: int, ghost before: seq<int>, ghost chars: seq<int>)
    requires count < des.Length == |before| && des[count..] == before[count..]
    requires count < |chars| && des[..count] == chars[..count] && uc == chars[count]
    modifies des
    ensures des[..count + 1] == chars[..count + 1] && des[count + 1..] == before[count + 1..]
  {
    assert before[count..][1..] == before[count + 1..] && des[count..][1..] == des[count + 1..];
    des[count] := uc;
    assert des[..count + 1] == des[..count] + [uc];
  }

  /** u8decode: at most `n - 1` characters and a zero; the skipped bytes of the read that found
      the end, or no more room, count too. */
  method U8Decode(str: seq<byte>, des: array<int>, n: nat) returns (count: nat, illegal: nat)
    requires CString(str) && n <= des.Length
    modifies des
    ensures n == 0 ==> count == 0
    ensures n > 0 ==> count == Min(|Decode(str, 0).chars|, n - 1) && des[count] == 0
    ensures des[..count] == Decode(str, 0).chars[..count]
    ensures n > 0 ==> illegal == Reads(str, count + 1).1
    ensures des[Min(count + 1, n)..] == old(des[Min(count + 1, n)..])
  {
    count, illegal := 0, 0;
    if n == 0 {
      return;
    }
    ghost var chars, pos: nat, before := Decode(str, 0).chars, 0, des[..];
    var uc, s, rIllegal := GetU8c(str, 0);
    while uc != 0 && count < n - 1
      invariant pos < |str| && Got(uc, s, rIllegal) == Get(str, pos)
      invariant count <= n - 1 && count <= |chars|
      invariant des[..count] == chars[..count]
      invariant Reads(str, count) == (pos, illegal)
      invariant des[count..] == before[count..]
      decreases n - count
    {
      NextChar(str, count, pos, Got(uc, s, rIllegal));
      Store(des, count, uc, before, chars);
      count := count + 1;
      illegal := illegal + rIllegal;
      pos := s;
      uc, s, rIllegal := GetU8c(str, s);
    }
    ReadsDecode(str, count);
    assert des[count..][1..] == des[count + 1..] && before[count..][1..] == before[count + 1..];
    des[count] := 0;
    illegal := illegal + rIllegal;
  }

  /** When every character fits, `illegal` is the number of all bytes skipped in the string. */
  lemma AllReads(s: seq<byte>)
    requires CString(s)
    ensures Reads(s, |Decode(s, 0).chars| + 1).1 == Decode(s, 0).illegal
  {
    ReadsDecode(s, |Decode(s, 0).chars|);
  }

  /** The loop of putu8c: continuation bytes from the last to the first, then the lead byte. */
  method PutForm(uc: nat, des: array<byte>, d: nat)
    requires uc < 0x8000_0000 && d + FormLength(uc) <= des.Length
    modifies des
    ensures forall k :: 0 <= k < FormLength(uc) ==> des[d + k] == Form(uc)[k]
    ensures forall k :: 0 <= k < d || d + FormLength(uc) <= k < des.Length ==> des[k] == old(des[k])
  {
    var byteNum, v := FormLength(uc), uc;
    var i := byteNum - 1;
    while i > 0
      invariant 0 <= i < byteNum && v == ShiftRight(uc, byteNum - 1 - i)
      invariant forall k :: i < k < byteNum ==> des[d + k] == Form(uc)[k]
      invariant forall k :: 0 <= k <= d + i || d + byteNum <= k < des.Length ==> des[k] == old(des[k])
    {
      ContinuationsAt(uc, byteNum - 1, i - 1);
      ShiftOnce(uc, byteNum - 1 - i);
      des[d + i] := 0x80 + v % 64;
      v := v / 64;
      i := i - 1;
    }
    LeadFits(uc);
    des[d] := LeadMark(byteNum) + v;
  }

  /** putu8c: the form and a NUL at `d`, when `left` cells hold both; -1 for a negative
      character and -2 for lack of room leave everything as it was. */
  method PutU8c(uc: int, des: array<byte>, d: nat, left: nat) returns (ret: int, d': nat, left': nat)
    requires uc < 0x8000_0000 && d + left <= des.Length
    modifies des
    ensures uc < 0 ==> ret == -1
    ensures uc >= 0 ==> ret == if left < FormLength(uc) + 1 then -2 else FormLength(uc)
    ensures ret < 0 ==> d' == d && left' == left && forall k :: 0 <= k < des.Length ==> des[k] == old(des[k])
    ensures ret > 0 ==> d' == d + ret && left' == left - ret && des[d'] == NUL
    ensures ret > 0 ==> forall k :: 0 <= k < ret ==> des[d + k] == Form(uc)[k]
    ensures forall k :: 0 <= k < d ==> des[k] == old(des[k])
  {
    d', left' := d, left;
    if uc < 0 {
      return -1, d', left';
    }
    var byteNum := FormLength(uc);
    if left < byteNum + 1 {
      return -2, d', left';
    }
    left' := left - byteNum;
    PutForm(uc, des, d);
    d' := d + byteNum;
    des[d'] := NUL;
    ret := byteNum;
  }

  /** u8encode: the NUL-terminated forms of the longest prefix of `us` that fits; negative
      characters are left out and counted.  `m` is the length of that prefix. */
  method U8Encode(us: seq<int>, des: array<byte>, n: nat) returns (len: nat, illegal: nat, ghost m: nat)
    requires UcsString(us) && n <= des.Length
    modifies des
    ensures n == 0 ==> len == 0
    ensures n > 0 ==> m < |us| && 0 !in us[..m] && len < n && des[len] == NUL
    ensures n > 0 ==> len == |Forms(us, m)| && des[..len] == Forms(us, m) && illegal == Negatives(us, m)
    ensures n > 0 ==> us[m] == 0 || (us[m] > 0 && len + FormLength(us[m]) >= n)
  {
    len, illegal, m := 0, 0, 0;
    if n == 0 {
      return;
    }
    var s, left, i := 0, n, 0;
    des[0] := NUL;
    while us[i] != 0
      invariant i < |us| && m == i && 0 !in us[..i]
      invariant len == s && s + left == n && left > 0 && des[s] == NUL
      invariant des[..s] == Forms(us, i) && illegal == Negatives(us, i)
      decreases |us| - i
    {
      ghost var before := des[..s];
      var ret;
      ret, s, left := PutU8c(us[i], des, s, left);
      if ret > 0 {
        len := len + ret;
        assert des[..s] == before + Form(us[i]);
      } else if ret == -1 {
        illegal := illegal + 1;
        assert des[..s] == before + [];
      } else {
        assert des[..s] == before;
        break;
      }
      i := i + 1;
      m := i;
    }
  }

  /** Characters encoded and decoded on real buffers. */
  method ThereAndBack(us: seq<nat>, n: nat) returns (back: array<int>, count: nat, illegal: nat)
    requires Characters(us) && |Forms(us, |us|)| < n
    ensures fresh(back) && count == |us| && illegal == 0
    ensures count < back.Length && back[..count] == us && back[count] == 0
  {
    var des := new byte[n];
    back := new int[|us| + 1];
    FormsOfAll(us, |us|);
    var len, _, m := U8Encode(us + [0], des, n);
    AllFit(us, n, m);
    var str := des[..len + 1];
    assert str == Forms(us, |us|) + [NUL];
    count, illegal := DecodeAll(str, back, us);
  }

  method DecodeAll(str: seq<byte>, back: array<int>, ghost us: seq<nat>) returns (count: nat, illegal: nat)
    requires Characters(us) && str == Forms(us, |us|) + [NUL] && back.Length == |us| + 1
    modifies back
    ensures count == |us| && illegal == 0 && back[..count] == us && back[count] == 0
  {
    RoundTrip(us);
    AllReads(str);
    count, illegal := U8Decode(str, back, back.Length);
  }

  /** Encoding stops at the final zero when everything fits. */
  lemma {:induction false} AllFit(us: seq<nat>, n: nat, m: nat)
    requires Characters(us) && |Forms(us, |us|)| < n && m <= |us|
    requires m < |us| ==> us[m] < 0x8000_0000 && |Forms(us + [0], m)| + FormLength(us[m]) >= n
    ensures m == |us| && Forms(us + [0], m) == Forms(us, |us|)
  {
    FormsOfAll(us, m);
    FormsGrow(us + [0], m, |us|);
  }

  lemma {:induction false} FormsOfAll(us: seq<nat>, m: nat)
    requires Characters(us) && m <= |us|
    ensures UcsString(us + [0]) && forall i :: 0 <= i < |us| ==> (us + [0])[i] == us[i]
    ensures Forms(us + [0], m) == Forms(us, m) && Forms(us + [0], |us|) == Forms(us, |us|)
  {
    SameForms(us, us + [0], m);
    SameForms(us, us + [0], |us|);
  }

  lemma {:induction false} SameForms(a: seq<int>, b: seq<int>, m: nat)
    requires m <= |a| <= |b| && forall i :: 0 <= i < m ==> a[i] == b[i] < 0x8000_0000
    ensures Forms(a, m) == Forms(b, m)
  {
    if m > 0 {
      SameForms(a, b, m - 1);
    }
  }
}
