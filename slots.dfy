/**
 * The slot allocator behind the value table: `space` is a bitmap with one
 * bit per slot of `values`, set while a subscription holds the slot.
 * `findSpace` (XPlaneUDP.cpp:164-185) is first fit: it returns the start of
 * the first run of free bits long enough for the request, or grows the
 * bitmap at its end when no such run exists.
 */
module Slots {
  import opened Wire

  /** Bits `[s, s + len)` exist and are all clear. */
  predicate FreeRun(space: seq<bool>, s: nat, len: nat)
  {
    s + len <= |space| && forall k :: s <= k < s + len ==> !space[k]
  }

  /**
   * The run length the scan looks for. The test `count >= length` is reached
   * only after a free bit has been counted, so a request for no slots still
   * stops at the first free bit: the scan looks for at least one.
   */
  function Probe(length: nat): (l: nat)
    ensures l >= 1 && l >= length
  {
    if length == 0 then 1 else length
  }

  /** The first start at or after `s` of a free run of `l` bits, or `|space|` when there is none. */
  function FirstFitFrom(space: seq<bool>, l: nat, s: nat): (start: nat)
    requires l >= 1
    ensures start <= |space| && (start < |space| ==> start + l <= |space|)
    decreases |space| - s
  {
    if s + l > |space| then |space|
    else if FreeRun(space, s, l) then s
    else FirstFitFrom(space, l, s + 1)
  }

  /** Where `findSpace(length)` places a request. */
  function FirstFit(space: seq<bool>, length: nat): (start: nat)
    ensures start <= |space| && (start < |space| ==> start + Probe(length) <= |space|)
  {
    FirstFitFrom(space, Probe(length), 0)
  }

  lemma {:induction false} FirstFitFromFound(space: seq<bool>, l: nat, s: nat)
    requires l >= 1
    ensures FirstFitFrom(space, l, s) < |space| ==> FreeRun(space, FirstFitFrom(space, l, s), l)
    ensures FirstFitFrom(space, l, s) < |space| ==> s <= FirstFitFrom(space, l, s)
    ensures forall t :: s <= t < FirstFitFrom(space, l, s) ==> !FreeRun(space, t, l)
    decreases |space| - s
  {
    if s + l > |space| {
      forall t | s <= t < |space| ensures !FreeRun(space, t, l) {
      }
    } else if !FreeRun(space, s, l) {
      FirstFitFromFound(space, l, s + 1);
    }
  }

  /**
   * First fit: when the result is inside the bitmap, a free run of the
   * probed length starts there; no free run starts before it; and the result
   * is the bitmap's size exactly when no free run exists at all.
   */
  lemma FirstFitIsFirst(space: seq<bool>, length: nat)
    ensures FirstFit(space, length) <= |space|
    ensures FirstFit(space, length) < |space| ==> FreeRun(space, FirstFit(space, length), Probe(length))
    ensures forall s :: 0 <= s < FirstFit(space, length) ==> !FreeRun(space, s, Probe(length))
    ensures FirstFit(space, length) == |space| <==> forall s :: 0 <= s <= |space| ==> !FreeRun(space, s, Probe(length))
  {
    FirstFitFromFound(space, Probe(length), 0);
  }

  /** Skipping starts at which no run fits does not change where the search ends. */
  lemma {:induction false} FirstFitSkip(space: seq<bool>, l: nat, a: nat, b: nat)
    requires l >= 1 && a <= b
    requires forall s :: a <= s < b ==> !FreeRun(space, s, l)
    ensures FirstFitFrom(space, l, a) == FirstFitFrom(space, l, b)
    decreases b - a
  {
    if a < b {
      if a + l > |space| {
        assert FirstFitFrom(space, l, b) == |space|;
      } else {
        FirstFitSkip(space, l, a + 1, b);
      }
    }
  }

  /** A free run found by the scan is where the search from its start stops. */
  lemma FirstFitAtRun(space: seq<bool>, l: nat, s: nat)
    requires l >= 1 && FreeRun(space, s, l)
    ensures FirstFitFrom(space, l, s) == s
  {
  }

  /** No run fits at or after `s` once fewer than `l` bits remain. */
  lemma FirstFitPastEnd(space: seq<bool>, l: nat, s: nat)
    requires l >= 1 && s + l > |space|
    ensures FirstFitFrom(space, l, s) == |space|
  {
  }

  /** `dynamic_bitset::set(pos, len, value)`: bits `[pos, pos + len)` become `value`. */
  function Mark(space: seq<bool>, pos: nat, len: nat, value: bool): (r: seq<bool>)
    requires pos + len <= |space|
    ensures |r| == |space|
    ensures forall k :: 0 <= k < |space| ==> r[k] == if pos <= k < pos + len then value else space[k]
  {
    seq(|space|, k requires 0 <= k < |space| => if pos <= k < pos + len then value else space[k])
  }

  function Ones(n: nat): (r: seq<bool>)
    ensures |r| == n && forall k :: 0 <= k < n ==> r[k]
  {
    seq(n, _ => true)
  }

  /**
   * The bitmap after `findSpace(length)` returns `start`: the run is set in
   * place, or `length` set bits are appended when the search found no run.
   */
  function AfterAlloc(space: seq<bool>, length: nat, start: nat): (r: seq<bool>)
    requires start <= |space|
    requires start < |space| ==> start + length <= |space|
    ensures |space| <= |r|
  {
    if start < |space| then Mark(space, start, length, true) else space + Ones(length)
  }

  /**
   * What allocation promises: the range `[start, start + length)` was free
   * before and is set after; the bitmap grows by exactly `length` bits when
   * there was no room and otherwise keeps its size; every bit outside the
   * range keeps its value, so a bit that was set stays set.
   */
  lemma AllocMarksRun(space: seq<bool>, length: nat)
    ensures FirstFit(space, length) < |space| ==> FreeRun(space, FirstFit(space, length), length)
    ensures var start := FirstFit(space, length);
            var r := AfterAlloc(space, length, start);
            && |r| == (if start < |space| then |space| else |space| + length)
            && start + length <= |r|
            && (forall k :: start <= k < start + length ==> r[k])
            && (forall k :: 0 <= k < |space| && !(start <= k < start + length) ==> r[k] == space[k])
            && (forall k :: 0 <= k < |space| && space[k] ==> r[k])
  {
    FirstFitIsFirst(space, length);
  }

  /** The value `values.emplace_back()` appends: a zero float. */
  function ZeroFloats(n: nat): (r: seq<Float32>)
    ensures |r| == n && forall k :: 0 <= k < n ==> r[k] == Float32(0)
  {
    seq(n, _ => Float32(0))
  }

  // ------------------------------------------------ as the source writes it

  /**
   * The bitmap update at XPlaneUDP.cpp:172, `space.set(start, start + length, true)`:
   * the second argument of `set` is a length, so it sets `start + length` bits.
   * `dynamic_bitset` requires the range to lie inside the bitmap.
   */
  function MarkAsWritten(space: seq<bool>, start: nat, length: nat): (r: seq<bool>)
    requires start + (start + length) <= |space|
    ensures |r| == |space|
  {
    Mark(space, start, start + length, true)
  }

  /**
   * A single slot requested from `[used, free, free]` lands at slot 1; the
   * update as written also sets slot 2, which nothing holds.
   */
  lemma MarkAsWrittenOvershoots()
    ensures FirstFit([true, false, false], 1) == 1
    ensures AfterAlloc([true, false, false], 1, 1) == [true, true, false]
    ensures MarkAsWritten([true, false, false], 1, 1) == [true, true, true]
  {
    var space := [true, false, false];
    assert !FreeRun(space, 0, 1) by { assert space[0]; }
    assert FreeRun(space, 1, 1);
    assert AfterAlloc(space, 1, 1)[2] == false;
    assert MarkAsWritten(space, 1, 1)[2] == true;
  }

  /**
   * `extendSpace` as written (XPlaneUDP.cpp:187-190): the bound
   * `space.size() - values.size()` is evaluated again after each append, so
   * the loop stops half way and fills only half the gap, rounded up.
   */
  method ExtendSpaceAsWritten(spaceSize: nat, values: seq<Float32>) returns (r: seq<Float32>)
    requires |values| <= spaceSize
    ensures r == values + ZeroFloats((spaceSize - |values| + 1) / 2)
    ensures spaceSize - |values| >= 2 ==> |r| < spaceSize
  {
    r := values;
    var i := 0;
    while i < spaceSize - |r|
      invariant |r| == |values| + i <= spaceSize
      invariant 2 * i <= spaceSize - |values| + 1
      invariant r == values + ZeroFloats(i)
      decreases spaceSize - |r| - i
    {
      r := r + [Float32(0)];
      i := i + 1;
    }
    assert i == (spaceSize - |values| + 1) / 2;
  }
}
