/** The fixed-point filter of the touch pads in TouchPadRefactor.c: an accumulator with four
    fractional bits that moves a quarter of the way to each new sample. */
module TouchFilter {
  const FACTOR: nat := 4        // TOUCH_PAD_FILTER_FACTOR_DEFAULT
  const SCALE: nat := 16        // 1 << TOUCH_PAD_SHIFT_DEFAULT
  const ROUND: nat := 8         // TOUCH_PAD_SHIFT_ROUND_DEFAULT
  const PADS: nat := 10         // TOUCH_PAD_MAX
  const WORD: nat := 0x1_0000_0000

  type uint16 = x: int | 0 <= x < 0x10000

  /** No accumulator is above this. */
  const TOP: nat := 0xFFFF * SCALE

  /** _touch_filter_iir, in 32 bits */
  function Iir(now: nat, last: nat, k: nat): nat {
    if k == 0 then now else (now + (k - 1) * last) % WORD / k
  }

  /** An accumulator of 0 takes the first sample. */
  function Seeded(acc: nat, val: uint16): nat {
    if acc == 0 then val * SCALE else acc
  }

  function Next(acc: nat, val: uint16): nat {
    Iir(val * SCALE, Seeded(acc, val), FACTOR)
  }

  /** The value handed out, cut to 16 bits. */
  function Filtered(acc: nat): uint16 {
    (acc + ROUND) / SCALE % 0x10000
  }

  /** The accumulator after the first n samples. */
  function AfterSamples(acc: nat, vals: seq<uint16>, n: nat): nat
    requires n <= |vals|
  {
    if n == 0 then acc else Next(AfterSamples(acc, vals, n - 1), vals[n - 1])
  }

  function Min(a: nat, b: nat): nat { if a < b then a else b }

  function Max(a: nat, b: nat): nat { if a < b then b else a }

  /** No sum leaves 32 bits. */
  lemma NoWrap(acc: nat, val: uint16)
    requires acc <= TOP
    ensures Next(acc, val) == (val * SCALE + (FACTOR - 1) * Seeded(acc, val)) / FACTOR
  {
    assert val * SCALE + (FACTOR - 1) * Seeded(acc, val) < WORD;
  }

  /** The accumulator moves towards the sample without passing it, and rounding it fits 16 bits. */
  lemma NextBetween(acc: nat, val: uint16)
    requires acc <= TOP
    ensures Min(Seeded(acc, val), val * SCALE) <= Next(acc, val) <= Max(Seeded(acc, val), val * SCALE) <= TOP
    ensures Filtered(Next(acc, val)) == (Next(acc, val) + ROUND) / SCALE
  {
    NoWrap(acc, val);
  }

  /** With every sample between two bounds, so is every value handed out after a reset. */
  lemma {:induction false} FilteredWithin(vals: seq<uint16>, lo: uint16, hi: uint16, n: nat)
    requires 0 < n <= |vals| && forall i :: 0 <= i < |vals| ==> lo <= vals[i] <= hi
    ensures lo * SCALE <= AfterSamples(0, vals, n) <= hi * SCALE
    ensures lo <= Filtered(AfterSamples(0, vals, n)) <= hi
  {
    if n > 1 {
      FilteredWithin(vals, lo, hi, n - 1);
    }
    NextBetween(AfterSamples(0, vals, n - 1), vals[n - 1]);
  }

  /** How far an accumulator can be from a constant input after n samples. */
  function Bound(n: nat): nat {
    if n == 0 then TOP else (3 * Bound(n - 1) + 3) / 4
  }

  function Distance(acc: nat, val: uint16): nat {
    if acc < val * SCALE then val * SCALE - acc else acc - val * SCALE
  }

  /** The residue floor division leaves: an accumulator rests exactly in the last three
      sixteenths below the sample. */
  lemma RestsIff(acc: nat, val: uint16)
    requires 0 < acc <= TOP
    ensures Next(acc, val) == acc <==> acc <= val * SCALE <= acc + 3
  {
    NoWrap(acc, val);
  }

  /** One sample takes a quarter of the distance away, up to the floor. */
  lemma Closer(acc: nat, val: uint16)
    requires acc <= TOP
    ensures Next(acc, val) <= TOP
    ensures 4 * Distance(Next(acc, val), val) <= 3 * Distance(acc, val) + 3
  {
    NoWrap(acc, val);
  }

  lemma {:induction false} Approaches(acc: nat, vals: seq<uint16>, val: uint16, n: nat)
    requires acc <= TOP && n <= |vals| && forall i :: 0 <= i < |vals| ==> vals[i] == val
    ensures AfterSamples(acc, vals, n) <= TOP
    ensures Distance(AfterSamples(acc, vals, n), val) <= Bound(n)
  {
    if n > 0 {
      Approaches(acc, vals, val, n - 1);
      Closer(AfterSamples(acc, vals, n - 1), val);
    }
  }

  /** After this many equal samples the distance rounds away. */
  const SETTLED: nat := 42

  lemma ThreeSamples(n: nat, from: nat, to: nat)
    requires Bound(n) <= from && 27 * from + 111 < 64 * (to + 1)
    ensures Bound(n + 3) <= to
  {
    var b1, b2 := Bound(n + 1), Bound(n + 2);
    assert 4 * b1 <= 3 * from + 3 && 4 * b2 <= 3 * b1 + 3 && 4 * Bound(n + 3) <= 3 * b2 + 3;
  }

  lemma FirstHalf(n: nat)
    requires Bound(n) <= TOP
    ensures Bound(n + 21) <= 2496
  {
    ThreeSamples(n, 1048560, 442362);
    ThreeSamples(n + 3, 442362, 186623);
    ThreeSamples(n + 6, 186623, 78733);
    ThreeSamples(n + 9, 78733, 33217);
    ThreeSamples(n + 12, 33217, 14015);
    ThreeSamples(n + 15, 14015, 5914);
    ThreeSamples(n + 18, 5914, 2496);
  }

  lemma SecondHalf(n: nat)
    requires Bound(n) <= 2496
    ensures Bound(n + 21) < ROUND
  {
    ThreeSamples(n, 2496, 1054);
    ThreeSamples(n + 3, 1054, 446);
    ThreeSamples(n + 6, 446, 189);
    ThreeSamples(n + 9, 189, 81);
    ThreeSamples(n + 12, 81, 35);
    ThreeSamples(n + 15, 35, 16);
    assert Bound(n + 19) <= 12 && Bound(n + 20) <= 9;
  }

  lemma {:induction false} BoundFalls(n: nat)
    ensures Bound(n) <= TOP
  {
    if n > 0 {
      BoundFalls(n - 1);
    }
  }

  lemma BoundSettles(n: nat)
    requires n >= SETTLED
    ensures Bound(n) < ROUND
  {
    BoundFalls(n - SETTLED);
    FirstHalf(n - SETTLED);
    SecondHalf(n - 21);
  }

  lemma RoundsTo(acc: nat, val: uint16)
    requires Distance(acc, val) < ROUND
    ensures Filtered(acc) == val
  {
    assert val * SCALE <= acc + ROUND < (val + 1) * SCALE;
  }

  /** From every state, a constant input is handed out exactly from the SETTLED-th sample on. */
  lemma Settles(acc: nat, vals: seq<uint16>, val: uint16, n: nat)
    requires acc <= TOP && SETTLED <= n <= |vals|
    requires forall i :: 0 <= i < |vals| ==> vals[i] == val
    ensures Filtered(AfterSamples(acc, vals, n)) == val
  {
    Approaches(acc, vals, val, n);
    BoundSettles(n);
    RoundsTo(AfterSamples(acc, vals, n), val);
  }

  class Filter {
    const init: seq<bool>              // bits of s_touch_pad_init_bit
    const filteredTemp: array<nat>     // s_filtered_temp
    const filteredVal: array<uint16>
    const rawVal: array<uint16>

    ghost predicate Valid()
      reads filteredTemp
    {
      && |init| == filteredTemp.Length == filteredVal.Length == rawVal.Length == PADS
      && filteredVal != rawVal
      && forall i :: 0 <= i < PADS ==> filteredTemp[i] <= TOP
    }

    constructor (init: seq<bool>)
      requires |init| == PADS
      ensures Valid() && this.init == init
      ensures forall i :: 0 <= i < PADS ==> filteredTemp[i] == 0
    {
      this.init := init;
      filteredTemp := new nat[PADS](_ => 0);
      filteredVal := new uint16[PADS];
      rawVal := new uint16[PADS];
    }

    /** The loop of touch_pad_filter_cb, with the values _touch_pad_read gives. */
    method Callback(read: seq<uint16>)
      requires Valid() && |read| == PADS
      modifies filteredTemp, filteredVal, rawVal
      ensures Valid()
      ensures forall i :: 0 <= i < PADS && init[i] ==>
        && filteredTemp[i] == Next(old(filteredTemp[i]), read[i])
        && filteredVal[i] == Filtered(filteredTemp[i])
        && rawVal[i] == read[i]
      ensures forall i :: 0 <= i < PADS && !init[i] ==>
        && filteredTemp[i] == old(filteredTemp[i])
        && filteredVal[i] == old(filteredVal[i])
        && rawVal[i] == old(rawVal[i])
    {
      for i := 0 to PADS
        invariant forall j :: 0 <= j < PADS ==>
          filteredTemp[j] <= TOP
          && filteredTemp[j] == if j < i && init[j] then Next(old(filteredTemp[j]), read[j]) else old(filteredTemp[j])
        invariant forall j :: 0 <= j < PADS ==>
          && filteredVal[j] == (if j < i && init[j] then Filtered(filteredTemp[j]) else old(filteredVal[j]))
          && rawVal[j] == if j < i && init[j] then read[j] else old(rawVal[j])
      {
        if init[i] {
          var val := read[i];
          rawVal[i] := val;
          filteredTemp[i] := if filteredTemp[i] == 0 then val * SCALE else filteredTemp[i];
          filteredTemp[i] := Iir(val * SCALE, filteredTemp[i], FACTOR);
          filteredVal[i] := (filteredTemp[i] + ROUND) / SCALE % 0x10000;
          NextBetween(old(filteredTemp[i]), val);
        }
      }
    }
  }
}
