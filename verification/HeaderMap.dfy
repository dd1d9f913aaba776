/** The header and option lists of req_list.c as values: entries in insertion order, found by
    key without regard to case. */
module HeaderMap {
  import opened Options

  datatype Entry = Entry(key: string, value: string)

  /** tolower in the C locale. */
  function LowerChar(c: char): char {
    if 'A' <= c <= 'Z' then c - 'A' + 'a' else c
  }

  function Lower(s: string): (r: string)
    ensures |r| == |s| && forall i :: 0 <= i < |s| ==> r[i] == LowerChar(s[i])
  {
    if s == "" then "" else Lower(s[..|s| - 1]) + [LowerChar(s[|s| - 1])]
  }

  /** strcasecmp(a, b) == 0 */
  predicate SameKey(a: string, b: string) {
    Lower(a) == Lower(b)
  }

  const UPPER := "ABCDEFGHIJKLMNOPQRSTUVWXYZ"
  const LOWER := "abcdefghijklmnopqrstuvwxyz"

  /** The same letter in both cases, or the same character. */
  predicate SameLetter(a: char, b: char) {
    a == b || exists k :: 0 <= k < 26 && ((a == UPPER[k] && b == LOWER[k]) || (a == LOWER[k] && b == UPPER[k]))
  }

  lemma LetterIs(a: char)
    ensures 'A' <= a <= 'Z' ==> UPPER[a as int - 65] == a && LOWER[a as int - 65] == LowerChar(a)
    ensures !('A' <= a <= 'Z') ==> LowerChar(a) == a
  {
  }

  lemma CaseIs(k: nat)
    requires k < 26
    ensures LowerChar(UPPER[k]) == LOWER[k] == LowerChar(LOWER[k])
  {
  }

  lemma SameLetterIff(a: char, b: char)
    ensures LowerChar(a) == LowerChar(b) <==> SameLetter(a, b)
  {
    LetterIs(a);
    LetterIs(b);
    if a != b && SameLetter(a, b) {
      var k :| 0 <= k < 26 && ((a == UPPER[k] && b == LOWER[k]) || (a == LOWER[k] && b == UPPER[k]));
      CaseIs(k);
    }
  }

  /** Keys are the same if and only if they are the same letter by letter, in any case. */
  lemma SameKeyIff(a: string, b: string)
    ensures SameKey(a, b) <==> |a| == |b| && forall i :: 0 <= i < |a| ==> SameLetter(a[i], b[i])
  {
    if |a| == |b| {
      forall i | 0 <= i < |a| ensures Lower(a)[i] == Lower(b)[i] <==> SameLetter(a[i], b[i]) {
        SameLetterIff(a[i], b[i]);
      }
    }
  }

  function IndexFrom(list: seq<Entry>, key: string, i: nat): (r: Option<nat>)
    ensures r.Some? ==> i <= r.value < |list| && SameKey(list[r.value].key, key)
    ensures r.Some? ==> forall k :: i <= k < r.value ==> !SameKey(list[k].key, key)
    ensures r.None? ==> forall k :: i <= k < |list| ==> !SameKey(list[k].key, key)
    decreases |list| - i
  {
    if i >= |list| then None
    else if SameKey(list[i].key, key) then Some(i)
    else IndexFrom(list, key, i + 1)
  }

  /** req_list_set_key */
  function Set(list: seq<Entry>, key: string, value: string): seq<Entry> {
    var at := IndexFrom(list, key, 0);
    if at.Some? then list[at.value := list[at.value].(value := value)] else list + [Entry(key, value)]
  }

  /** req_list_get_key, its value */
  function Get(list: seq<Entry>, key: string): Option<string> {
    var at := IndexFrom(list, key, 0);
    if at.Some? then Some(list[at.value].value) else None
  }

  ghost predicate DistinctKeys(list: seq<Entry>) {
    forall i, j :: 0 <= i < j < |list| ==> !SameKey(list[i].key, list[j].key)
  }

  /** The map from lower-case keys that the entries from position i on stand for. */
  ghost function MapFrom(list: seq<Entry>, i: nat): map<string, string>
    decreases |list| - i
  {
    if i >= |list| then map[] else MapFrom(list, i + 1)[Lower(list[i].key) := list[i].value]
  }

  ghost function MapOf(list: seq<Entry>): map<string, string> {
    MapFrom(list, 0)
  }

  lemma LowerTwice(s: string)
    ensures Lower(Lower(s)) == Lower(s)
  {
  }

  /** A lookup is a lookup of the lower-case key in the map. */
  lemma {:induction false} GetIsLookupFrom(list: seq<Entry>, key: string, i: nat)
    ensures var at, m := IndexFrom(list, key, i), MapFrom(list, i);
      at.Some? == (Lower(key) in m) && (at.Some? ==> m[Lower(key)] == list[at.value].value)
    decreases |list| - i
  {
    if i < |list| {
      GetIsLookupFrom(list, key, i + 1);
    }
  }

  lemma GetIsLookup(list: seq<Entry>, key: string)
    ensures Get(list, key) == if Lower(key) in MapOf(list) then Some(MapOf(list)[Lower(key)]) else None
  {
    GetIsLookupFrom(list, key, 0);
  }

  lemma {:induction false} SameIndex(list: seq<Entry>, a: string, b: string, i: nat)
    requires SameKey(a, b)
    ensures IndexFrom(list, a, i) == IndexFrom(list, b, i)
    decreases |list| - i
  {
    if i < |list| {
      SameIndex(list, a, b, i + 1);
    }
  }

  /** The entries with other keys. */
  function Others(list: seq<Entry>, key: string): seq<Entry> {
    if list == [] then []
    else (if SameKey(list[0].key, key) then [] else [list[0]]) + Others(list[1..], key)
  }

  lemma {:induction false} OthersConcat(a: seq<Entry>, b: seq<Entry>, key: string)
    ensures Others(a + b, key) == Others(a, key) + Others(b, key)
  {
    if a == [] {
      assert a + b == b;
    } else {
      assert (a + b)[0] == a[0] && (a + b)[1..] == a[1..] + b;
      OthersConcat(a[1..], b, key);
    }
  }

  lemma {:induction false} OthersOfOne(e: Entry, key: string)
    ensures Others([e], key) == if SameKey(e.key, key) then [] else [e]
  {
    assert [e][1..] == [];
  }

  /** An entry with the key counts for nothing, whatever its value. */
  lemma OthersAround(front: seq<Entry>, e: Entry, rest: seq<Entry>, key: string)
    requires SameKey(e.key, key)
    ensures Others(front + [e] + rest, key) == Others(front, key) + Others(rest, key)
  {
    OthersConcat(front + [e], rest, key);
    OthersConcat(front, [e], key);
    OthersOfOne(e, key);
  }

  /** A set leaves the other entries as they are, in order, and never adds a second entry of a key. */
  lemma SetKeepsOthers(list: seq<Entry>, key: string, value: string)
    ensures Others(Set(list, key, value), key) == Others(list, key)
    ensures |Set(list, key, value)|
      == |list| + if exists k :: 0 <= k < |list| && SameKey(list[k].key, key) then 0 else 1
  {
    var at := IndexFrom(list, key, 0);
    if at.Some? {
      var i := at.value;
      var e := list[i].(value := value);
      assert list == list[..i] + [list[i]] + list[i + 1..];
      assert Set(list, key, value) == list[..i] + [e] + list[i + 1..];
      OthersAround(list[..i], list[i], list[i + 1..], key);
      OthersAround(list[..i], e, list[i + 1..], key);
    } else {
      OthersAround(list, Entry(key, value), [], key);
      assert list + [Entry(key, value)] + [] == Set(list, key, value);
    }
  }

  /** Setting a key keeps the keys distinct. */
  lemma SetKeepsDistinct(list: seq<Entry>, key: string, value: string)
    requires DistinctKeys(list)
    ensures DistinctKeys(Set(list, key, value))
  {
  }

  /** After a set, exactly that key, in any case, has the new value. */
  lemma GetSet(list: seq<Entry>, key: string, value: string, other: string)
    requires DistinctKeys(list)
    ensures Get(Set(list, key, value), other) == if SameKey(key, other) then Some(value) else Get(list, other)
  {
    var list' := Set(list, key, value);
    var was, now := IndexFrom(list, other, 0), IndexFrom(list', other, 0);
    var at := IndexFrom(list, key, 0);
    assert now.Some? && !SameKey(key, other) ==> SameKey(list[now.value].key, other);
    assert was.Some? ==> SameKey(list'[was.value].key, other);
    if SameKey(key, other) {
      SameIndex(list, key, other, 0);
      var i := if at.Some? then at.value else |list|;
      assert SameKey(list'[i].key, other);
    }
  }

  lemma {:induction false} MapKeysAreLower(list: seq<Entry>, i: nat, k: string)
    requires k in MapFrom(list, i)
    ensures Lower(k) == k
    decreases |list| - i
  {
    if k in MapFrom(list, i + 1) {
      MapKeysAreLower(list, i + 1, k);
    } else {
      LowerTwice(list[i].key);
    }
  }

  /** The list refines a map: setting a key is a map update of the lower-case key. */
  lemma SetIsMapUpdate(list: seq<Entry>, key: string, value: string)
    requires DistinctKeys(list)
    ensures MapOf(Set(list, key, value)) == MapOf(list)[Lower(key) := value]
  {
    var m, m', l := MapOf(list), MapOf(Set(list, key, value)), Lower(key);
    LowerTwice(key);
    GetLowerAgrees(list, key, value, l);
    forall k | k in m'
      ensures k in m[l := value] && m'[k] == m[l := value][k]
    {
      MapKeysAreLower(Set(list, key, value), 0, k);
      GetLowerAgrees(list, key, value, k);
    }
    forall k | k in m
      ensures k in m'
    {
      MapKeysAreLower(list, 0, k);
      GetLowerAgrees(list, key, value, k);
    }
  }

  /** One key of SetIsMapUpdate. */
  lemma GetLowerAgrees(list: seq<Entry>, key: string, value: string, k: string)
    requires DistinctKeys(list) && Lower(k) == k
    ensures var m, m' := MapOf(list), MapOf(Set(list, key, value));
      (k in m' <==> k == Lower(key) || k in m)
      && (k in m' ==> m'[k] == if k == Lower(key) then value else m[k])
  {
    GetSet(list, key, value, k);
    GetIsLookup(list, k);
    GetIsLookup(Set(list, key, value), k);
  }
}
