/**
 * The client object (XPlaneUDP.cpp, XPlaneUDP.hpp:42-101): a registry of
 * subscriptions, each holding a range of slots in the value table, the
 * bitmap that says which slots are taken, the latest aircraft pose, and the
 * datagrams sent to the simulator.
 */
module Client {
  import opened Wire
  import opened Format
  import opened Protocol
  import opened Slots

  /** The handle `addDataref` and `addDatarefArray` return. */
  datatype DatarefIndex = DatarefIndex(idx: nat)

  /**
   * One subscription: its name, its slots `[start, end]` in the value table,
   * the frequency it was added with, whether it currently receives, and
   * whether it is an array.
   */
  datatype DatarefInfo = DatarefInfo(name: Bytes, start: int, end: int, freq: int32, available: bool, isArray: bool)

  /** `end - start + 1`: the number of slots of a subscription. */
  function Length(r: DatarefInfo): int
  {
    r.end - r.start + 1
  }

  /**
   * Every name the subscription sends fits the 400 bytes a request leaves:
   * its own name for a scalar, the name of its last (and so longest) element
   * for an array.
   */
  predicate NamesFit(r: DatarefInfo)
  {
    if r.isArray then Length(r) <= 0 || |ElementName(r.name, Length(r) - 1)| <= RREF_NAME_CAPACITY
    else |r.name| <= RREF_NAME_CAPACITY
  }

  /** What every stored subscription satisfies: a scalar has one slot, an array none or more. */
  predicate WellFormed(r: DatarefInfo)
  {
    && 0 <= r.start
    && r.start - 1 <= r.end
    && (!r.isArray ==> r.end == r.start)
    && NamesFit(r)
  }

  /** A receiving subscription's slots exist and are marked taken. */
  predicate Held(space: seq<bool>, r: DatarefInfo)
  {
    r.available ==> 0 <= r.start && r.end < |space| && forall k :: r.start <= k <= r.end ==> space[k]
  }

  /** Two subscriptions share no slot. */
  predicate Disjoint(a: DatarefInfo, b: DatarefInfo)
  {
    Length(a) <= 0 || Length(b) <= 0 || a.end < b.start || b.end < a.start
  }

  /** The slot table is consistent: every subscription is well formed and held, and receiving ones do not overlap. */
  predicate Allocation(space: seq<bool>, refs: seq<DatarefInfo>)
  {
    && (forall h :: 0 <= h < |refs| ==> WellFormed(refs[h]) && Held(space, refs[h]))
    && (forall h, g :: 0 <= h < |refs| && 0 <= g < |refs| && h != g && refs[h].available && refs[g].available ==>
          Disjoint(refs[h], refs[g]))
  }

  /** `exist` maps each name to the handle of the subscription with that name, and every subscription is listed. */
  predicate Registry(refs: seq<DatarefInfo>, exist: map<Bytes, nat>)
  {
    && (forall n :: n in exist ==> exist[n] < |refs| && refs[exist[n]].name == n)
    && (forall h :: 0 <= h < |refs| ==> refs[h].name in exist && exist[refs[h].name] == h)
  }

  /** Slot `k` belongs to `r` while `r` receives. */
  predicate Owns(r: DatarefInfo, k: int)
  {
    r.available && r.start <= k <= r.end
  }

  /** Some receiving subscription in `refs` holds slot `k`. */
  predicate Owned(refs: seq<DatarefInfo>, k: int)
  {
    exists h :: 0 <= h < |refs| && Owns(refs[h], k)
  }

  /** No slot is taken without an owner: every set bit is a slot of some receiving subscription. */
  predicate Covered(space: seq<bool>, refs: seq<DatarefInfo>)
  {
    forall k {:trigger Owned(refs, k)} :: 0 <= k < |space| && space[k] ==> Owned(refs, k)
  }

  /**
   * The invariant of the client: the value table has one slot per bit, the
   * slots are allocated consistently, a bit is set exactly while a receiving
   * subscription holds it, and the registry indexes the subscriptions.
   */
  predicate Consistent(space: seq<bool>, values: seq<Float32>, refs: seq<DatarefInfo>, exist: map<Bytes, nat>)
  {
    |values| == |space| && Allocation(space, refs) && Covered(space, refs) && Registry(refs, exist)
  }

  /** The client starts with no subscriptions, no slots and an empty registry. */
  lemma InitiallyConsistent()
    ensures Consistent([], [], [], map[])
  {
  }

  // ------------------------------------------------------------ allocation

  /**
   * A slot range placed by first fit is held after allocation; every range
   * held before still is, and none of the receiving ones overlaps the new one.
   */
  lemma PlacedRangeIsDisjoint(space: seq<bool>, refs: seq<DatarefInfo>, r: DatarefInfo)
    requires Allocation(space, refs)
    requires WellFormed(r) && r.available && r.start == FirstFit(space, Length(r))
    ensures Held(AfterAlloc(space, Length(r), r.start), r)
    ensures forall h :: 0 <= h < |refs| ==> Held(AfterAlloc(space, Length(r), r.start), refs[h])
    ensures forall h :: 0 <= h < |refs| && refs[h].available ==> Disjoint(refs[h], r)
  {
    var len := Length(r);
    AllocMarksRun(space, len);
    forall h | 0 <= h < |refs| && refs[h].available ensures Disjoint(refs[h], r) {
      var q := refs[h];
      if Length(q) > 0 && len > 0 && r.start < |space| {
        if q.start <= r.start {
          assert !space[r.start];
        } else {
          assert space[q.start];
        }
      }
    }
  }

  /** Adding a subscription placed by first fit keeps the slot table consistent. */
  lemma AddKeepsAllocation(space: seq<bool>, refs: seq<DatarefInfo>, r: DatarefInfo)
    requires Allocation(space, refs)
    requires WellFormed(r) && r.available && r.start == FirstFit(space, Length(r))
    ensures Allocation(AfterAlloc(space, Length(r), r.start), refs + [r])
  {
    PlacedRangeIsDisjoint(space, refs, r);
    var refs' := refs + [r];
    assert forall h :: 0 <= h < |refs| ==> refs'[h] == refs[h];
  }

  /** Reactivating a stopped subscription at a range placed by first fit keeps the slot table consistent. */
  lemma RenewKeepsAllocation(space: seq<bool>, refs: seq<DatarefInfo>, h: nat, r: DatarefInfo)
    requires Allocation(space, refs)
    requires h < |refs| && !refs[h].available
    requires WellFormed(r) && r.available && r.start == FirstFit(space, Length(r))
    ensures Allocation(AfterAlloc(space, Length(r), r.start), refs[h := r])
  {
    PlacedRangeIsDisjoint(space, refs, r);
  }

  /**
   * Stopping a receiving subscription clears exactly its slots and keeps the
   * slot table consistent: the freed range is free afterwards.
   */
  lemma ReleaseFreesRange(space: seq<bool>, refs: seq<DatarefInfo>, h: nat)
    requires Allocation(space, refs)
    requires h < |refs| && refs[h].available
    ensures 0 <= refs[h].start && refs[h].start + Length(refs[h]) <= |space|
    ensures var r := refs[h];
            var space' := Mark(space, r.start, Length(r), false);
            && Allocation(space', refs[h := r.(available := false)])
            && FreeRun(space', r.start, Length(r))
  {
    var r := refs[h];
    var space' := Mark(space, r.start, Length(r), false);
    var refs' := refs[h := r.(available := false)];
    forall g | 0 <= g < |refs'| ensures WellFormed(refs'[g]) && Held(space', refs'[g]) {
      if g != h && refs[g].available {
        assert Disjoint(refs[g], r);
      }
    }
  }

  // --------------------------------------------------------------- coverage

  /** Adding a subscription placed by first fit leaves no taken slot without an owner. */
  lemma AddKeepsCovered(space: seq<bool>, refs: seq<DatarefInfo>, r: DatarefInfo)
    requires Covered(space, refs)
    requires WellFormed(r) && r.available && r.start == FirstFit(space, Length(r))
    ensures Covered(AfterAlloc(space, Length(r), r.start), refs + [r])
  {
    var len := Length(r);
    var space' := AfterAlloc(space, len, r.start);
    var refs' := refs + [r];
    AllocMarksRun(space, len);
    forall k | 0 <= k < |space'| && space'[k] ensures Owned(refs', k) {
      if r.start <= k < r.start + len {
        assert Owns(refs'[|refs|], k);
      } else {
        assert k < |space| && space[k] && Owned(refs, k);
        var g :| 0 <= g < |refs| && Owns(refs[g], k);
        assert Owns(refs'[g], k);
      }
    }
  }

  /** Giving a stopped subscription a range placed by first fit leaves no taken slot without an owner. */
  lemma RenewKeepsCovered(space: seq<bool>, refs: seq<DatarefInfo>, h: nat, r: DatarefInfo)
    requires Covered(space, refs)
    requires h < |refs| && !refs[h].available
    requires WellFormed(r) && r.available && r.start == FirstFit(space, Length(r))
    ensures Covered(AfterAlloc(space, Length(r), r.start), refs[h := r])
  {
    var len := Length(r);
    var space' := AfterAlloc(space, len, r.start);
    var refs' := refs[h := r];
    AllocMarksRun(space, len);
    forall k | 0 <= k < |space'| && space'[k] ensures Owned(refs', k) {
      if r.start <= k < r.start + len {
        assert Owns(refs'[h], k);
      } else {
        assert k < |space| && space[k] && Owned(refs, k);
        var g :| 0 <= g < |refs| && Owns(refs[g], k);
        assert Owns(refs'[g], k);
      }
    }
  }

  /** Stopping a subscription and clearing its slots leaves every remaining taken slot with an owner. */
  lemma ReleaseKeepsCovered(space: seq<bool>, refs: seq<DatarefInfo>, h: nat)
    requires Covered(space, refs)
    requires h < |refs| && 0 <= refs[h].start && 0 <= Length(refs[h]) && refs[h].start + Length(refs[h]) <= |space|
    ensures var r := refs[h];
            Covered(Mark(space, r.start, Length(r), false), refs[h := r.(available := false)])
  {
    var r := refs[h];
    var space' := Mark(space, r.start, Length(r), false);
    var refs' := refs[h := r.(available := false)];
    forall k | 0 <= k < |space'| && space'[k] ensures Owned(refs', k) {
      assert space[k] && Owned(refs, k);
      var g :| 0 <= g < |refs| && Owns(refs[g], k);
      assert Owns(refs'[g], k);
    }
  }

  /**
   * Slots are recycled: after a receiving subscription is stopped, asking
   * again for as many slots never grows the bitmap, and a nonempty request
   * is placed no later than the range just released.
   */
  lemma ReleaseThenRenewReuses(space: seq<bool>, refs: seq<DatarefInfo>, h: nat)
    requires Allocation(space, refs)
    requires h < |refs| && refs[h].available
    ensures 0 <= Length(refs[h]) && 0 <= refs[h].start && refs[h].start + Length(refs[h]) <= |space|
    ensures var r := refs[h];
            var space' := Mark(space, r.start, Length(r), false);
            var start := FirstFit(space', Length(r));
            && |AfterAlloc(space', Length(r), start)| == |space|
            && (Length(r) >= 1 ==> start <= r.start)
  {
    var r := refs[h];
    ReleaseFreesRange(space, refs, h);
    var space' := Mark(space, r.start, Length(r), false);
    FirstFitIsFirst(space', Length(r));
    AllocMarksRun(space', Length(r));
    if Length(r) >= 1 {
      assert Probe(Length(r)) == Length(r);
      assert FreeRun(space', r.start, Length(r));
    }
  }

  // -------------------------------------------------------------- registry

  /** Registering a new name under the next handle keeps the registry exact. */
  lemma AddKeepsRegistry(refs: seq<DatarefInfo>, exist: map<Bytes, nat>, r: DatarefInfo)
    requires Registry(refs, exist) && r.name !in exist
    ensures Registry(refs + [r], exist[r.name := |refs|])
  {
    var refs' := refs + [r];
    assert forall h :: 0 <= h < |refs| ==> refs'[h] == refs[h];
  }

  /** Changing a subscription in place, under its own name, keeps the registry exact. */
  lemma RenewKeepsRegistry(refs: seq<DatarefInfo>, exist: map<Bytes, nat>, h: nat, r: DatarefInfo)
    requires Registry(refs, exist) && h < |refs| && r.name == refs[h].name
    ensures Registry(refs[h := r], exist)
  {
  }

  // ------------------------------------------------------------- invariant

  /**
   * Registering a new subscription placed by first fit, with the value
   * table grown to the new bitmap, keeps the client consistent.
   */
  lemma AddKeepsConsistent(space: seq<bool>, values: seq<Float32>, refs: seq<DatarefInfo>, exist: map<Bytes, nat>, r: DatarefInfo)
    requires Consistent(space, values, refs, exist) && r.name !in exist
    requires WellFormed(r) && r.available && r.start == FirstFit(space, Length(r))
    ensures var space' := AfterAlloc(space, Length(r), r.start);
            && |values| <= |space'|
            && Consistent(space', values + ZeroFloats(|space'| - |values|), refs + [r], exist[r.name := |refs|])
  {
    AddKeepsAllocation(space, refs, r);
    AddKeepsCovered(space, refs, r);
    AddKeepsRegistry(refs, exist, r);
  }

  /**
   * Giving stopped subscription `h` a range placed by first fit, with the
   * value table grown to the new bitmap, keeps the client consistent.
   */
  lemma RenewKeepsConsistent(space: seq<bool>, values: seq<Float32>, refs: seq<DatarefInfo>, exist: map<Bytes, nat>, h: nat, r: DatarefInfo)
    requires Consistent(space, values, refs, exist) && h < |refs| && !refs[h].available
    requires WellFormed(r) && r.available && r.start == FirstFit(space, Length(r)) && r.name == refs[h].name
    ensures var space' := AfterAlloc(space, Length(r), r.start);
            && |values| <= |space'|
            && Consistent(space', values + ZeroFloats(|space'| - |values|), refs[h := r], exist)
  {
    RenewKeepsAllocation(space, refs, h, r);
    RenewKeepsCovered(space, refs, h, r);
    RenewKeepsRegistry(refs, exist, h, r);
  }

  /** Stopping receiving subscription `h` and clearing its slots keeps the client consistent. */
  lemma ReleaseKeepsConsistent(space: seq<bool>, values: seq<Float32>, refs: seq<DatarefInfo>, exist: map<Bytes, nat>, h: nat)
    requires Consistent(space, values, refs, exist) && h < |refs| && refs[h].available
    ensures 0 <= refs[h].start && refs[h].start + Length(refs[h]) <= |space|
    ensures var r := refs[h];
            Consistent(Mark(space, r.start, Length(r), false), values, refs[h := r.(available := false)], exist)
  {
    ReleaseFreesRange(space, refs, h);
    ReleaseKeepsCovered(space, refs, h);
    RenewKeepsRegistry(refs, exist, h, refs[h].(available := false));
  }

  // --------------------------------------------------------------- requests

  /**
   * The subscriptions for the first `n` elements of an array dataref, element
   * `i` asked for at slot `start + i` under the name `base[i]`.
   */
  function ArrayRequests(freq: int32, start: nat, base: Bytes, n: nat): (frames: seq<Bytes>)
    requires n == 0 || |ElementName(base, n - 1)| <= RREF_NAME_CAPACITY
    ensures |frames| == n && forall i :: 0 <= i < n ==> |frames[i]| == RREF_BUFFER
  {
    if n == 0 then []
    else
      ElementNameLengthMonotone(base, if n >= 2 then n - 2 else 0, n - 1);
      var earlier := ArrayRequests(freq, start, base, n - 1);
      var frames := earlier + [RrefRequest(freq, start + n - 1, ElementName(base, n - 1))];
      assert forall i :: 0 <= i < n - 1 ==> frames[i] == earlier[i];
      frames
  }

  /** The requests for `i + 1` elements are those for `i` and then the one for element `i`. */
  lemma ArrayRequestsStep(freq: int32, start: nat, base: Bytes, i: nat)
    requires i == 0 || |ElementName(base, i - 1)| <= RREF_NAME_CAPACITY
    requires |ElementName(base, i)| <= RREF_NAME_CAPACITY
    ensures ArrayRequests(freq, start, base, i + 1)
            == ArrayRequests(freq, start, base, i) + [RrefRequest(freq, start + i, ElementName(base, i))]
  {
  }

  /**
   * Element `i` of an array subscription asks, at the requested frequency,
   * for the value of `base[i]` to be sent with slot index `start + i`.
   */
  lemma {:induction false} ArrayRequestsAddressSlots(freq: int32, start: nat, base: Bytes, n: nat, i: nat)
    requires n == 0 || |ElementName(base, n - 1)| <= RREF_NAME_CAPACITY
    requires i < n && start + n <= 0x8000_0000
    ensures |ElementName(base, i)| <= RREF_NAME_CAPACITY
    ensures var f := ArrayRequests(freq, start, base, n)[i];
            && f[..HEADER_LENGTH] == RREF_HEAD
            && Decode(KInt32, f[5..9]) == Int32(freq)
            && Decode(KInt32, f[9..13]) == Int32(start + i)
            && f[13..13 + |ElementName(base, i)|] == ElementName(base, i)
    decreases n
  {
    ElementNameLengthMonotone(base, i, n - 1);
    if i < n - 1 {
      ElementNameLengthMonotone(base, n - 2, n - 1);
      ArrayRequestsAddressSlots(freq, start, base, n - 1, i);
      assert ArrayRequests(freq, start, base, n)[i] == ArrayRequests(freq, start, base, n - 1)[i];
    } else {
      RrefRequestLayout(freq, start + i, ElementName(base, i));
      assert ArrayRequests(freq, start, base, n)[i] == RrefRequest(freq, start + i, ElementName(base, i));
    }
  }

  /**
   * The requests that (re)subscribe `r` at `freq`: one for its name when it
   * is a scalar, one per element when it is an array.
   */
  function SubscriptionRequests(freq: int32, r: DatarefInfo): (frames: seq<Bytes>)
    requires WellFormed(r)
    ensures |frames| == if r.isArray then Length(r) else 1
    ensures forall i :: 0 <= i < |frames| ==> |frames[i]| == RREF_BUFFER
  {
    if r.isArray then ArrayRequests(freq, r.start, r.name, Length(r)) else [RrefRequest(freq, r.start, r.name)]
  }

  /** The writes for the elements of `value`, element `i` to `base[i]`. */
  function WriteRequests(base: Bytes, value: seq<Float32>): (frames: seq<Bytes>)
    requires |value| == 0 || |ElementName(base, |value| - 1)| <= DREF_NAME_CAPACITY
    ensures |frames| == |value| && forall i :: 0 <= i < |value| ==> |frames[i]| == DREF_BUFFER
  {
    if value == [] then []
    else
      var n := |value|;
      ElementNameLengthMonotone(base, if n >= 2 then n - 2 else 0, n - 1);
      var earlier := WriteRequests(base, value[..n - 1]);
      var frames := earlier + [DrefRequest(value[n - 1], ElementName(base, n - 1))];
      assert forall i :: 0 <= i < n - 1 ==> frames[i] == earlier[i];
      frames
  }

  /** The writes for the first `i + 1` elements are those for the first `i` and then the write of element `i`. */
  lemma WriteRequestsStep(base: Bytes, value: seq<Float32>, i: nat)
    requires i < |value|
    requires i == 0 || |ElementName(base, i - 1)| <= DREF_NAME_CAPACITY
    requires |ElementName(base, i)| <= DREF_NAME_CAPACITY
    ensures WriteRequests(base, value[..i + 1])
            == WriteRequests(base, value[..i]) + [DrefRequest(value[i], ElementName(base, i))]
  {
    assert value[..i + 1][..i] == value[..i];
  }

  /** Write `i` sets `base[i]` to `value[i]`. */
  lemma {:induction false} WriteRequestsAddressElements(base: Bytes, value: seq<Float32>, i: nat)
    requires |value| == 0 || |ElementName(base, |value| - 1)| <= DREF_NAME_CAPACITY
    requires i < |value|
    ensures |ElementName(base, i)| <= DREF_NAME_CAPACITY
    ensures var f := WriteRequests(base, value)[i];
            && f[..HEADER_LENGTH] == DREF_HEAD
            && Decode(KFloat, f[5..9]) == Float(value[i])
            && f[9..9 + |ElementName(base, i)|] == ElementName(base, i)
            && f[9 + |ElementName(base, i)|] == 0
    decreases |value|
  {
    var n := |value|;
    ElementNameLengthMonotone(base, i, n - 1);
    if i < n - 1 {
      ElementNameLengthMonotone(base, n - 2, n - 1);
      WriteRequestsAddressElements(base, value[..n - 1], i);
      assert value[..n - 1][i] == value[i];
      assert WriteRequests(base, value)[i] == WriteRequests(base, value[..n - 1])[i];
    } else {
      DrefRequestLayout(value[i], ElementName(base, i));
      assert WriteRequests(base, value)[i] == DrefRequest(value[i], ElementName(base, i));
    }
  }

  /**
   * The buffer `setDatarefArray` reuses holds zeros before the first write
   * and the previous write after it; packing write `i` into it gives that
   * write exactly, because the names only get longer.
   */
  lemma NextWriteInBuffer(base: Bytes, value: seq<Float32>, i: nat, buf: Bytes)
    requires i < |value| && |ElementName(base, |value| - 1)| <= DREF_NAME_CAPACITY
    requires i == 0 || |ElementName(base, i - 1)| <= DREF_NAME_CAPACITY
    requires buf == if i == 0 then Zeros(DREF_BUFFER) else DrefRequest(value[i - 1], ElementName(base, i - 1))
    ensures |ElementName(base, i)| <= DREF_NAME_CAPACITY
    ensures PackInto(buf, 0, DrefFields(value[i], ElementName(base, i))) == DrefRequest(value[i], ElementName(base, i))
  {
    ElementNameLengthMonotone(base, i, |value| - 1);
    if i > 0 {
      ElementNameLengthMonotone(base, i - 1, i);
      RepackedWrite(buf, value[i - 1], ElementName(base, i - 1), value[i], ElementName(base, i));
    }
  }

  /**
   * The buffer the array loop of `changeDatarefFreq` reuses holds zeros
   * before the first request and the previous request after it; packing
   * request `i` into it gives that request exactly.
   */
  lemma NextRequestInBuffer(freq: int32, start: nat, base: Bytes, n: nat, i: nat, buf: Bytes)
    requires i < n && |ElementName(base, n - 1)| <= RREF_NAME_CAPACITY
    requires i == 0 || |ElementName(base, i - 1)| <= RREF_NAME_CAPACITY
    requires buf == if i == 0 then Zeros(RREF_BUFFER) else RrefRequest(freq, start + i - 1, ElementName(base, i - 1))
    ensures |ElementName(base, i)| <= RREF_NAME_CAPACITY
    ensures PackInto(buf, 0, RrefFields(freq, start + i, ElementName(base, i))) == RrefRequest(freq, start + i, ElementName(base, i))
  {
    ElementNameLengthMonotone(base, i, n - 1);
    if i > 0 {
      ElementNameLengthMonotone(base, i - 1, i);
      RepackedRequest(buf, freq, start + i - 1, ElementName(base, i - 1), start + i, ElementName(base, i));
    }
  }

  /** `min` of two counts. */
  function Min(a: int, b: int): int
  {
    if a <= b then a else b
  }

  /** `n` copies of `v`. */
  function Fill(v: Float32, n: nat): (r: seq<Float32>)
    ensures |r| == n && forall k :: 0 <= k < n ==> r[k] == v
  {
    seq(n, _ => v)
  }

  // ------------------------------------------------- as the source writes it

  /**
   * The handle `addDataref` stores in `exist` (XPlaneUDP.cpp:32): the length
   * of the name string minus one, computed in `size_t`, instead of the
   * position of the new subscription.
   */
  function ExistEntryAsWritten(dataref: Bytes): nat
  {
    (|dataref| - 1) % TWO_64
  }

  /**
   * After adding "ab" to a fresh client, the registry as written records
   * handle 1 for the only subscription, whose handle is 0.
   */
  lemma ExistEntryAsWrittenBreaksRegistry()
    ensures var ab: Bytes := [0x61, 0x62];
            var refs := [DatarefInfo(ab, 0, 0, 1, true, false)];
            && FirstFit([], 1) == 0
            && ExistEntryAsWritten(ab) == 1
            && !Registry(refs, map[ab := ExistEntryAsWritten(ab)])
            && Registry(refs, map[ab := 0])
  {
    var ab: Bytes := [0x61, 0x62];
    var refs := [DatarefInfo(ab, 0, 0, 1, true, false)];
    assert ab in map[ab := ExistEntryAsWritten(ab)];
  }

  /**
   * The scalar read as written (XPlaneUDP.cpp:71): it reads the value table
   * at the handle instead of at the subscription's first slot.
   */
  function ScalarReadAsWritten(values: seq<Float32>, refs: seq<DatarefInfo>, h: nat, defaultValue: Float32): Float32
    requires h < |refs| && h < |values|
  {
    if refs[h].available then values[h] else defaultValue
  }

  /**
   * An array of two elements at slots 0-1 and a scalar at slot 2: reading the
   * scalar (handle 1) as written returns the array's second element.
   */
  lemma ScalarReadAsWrittenMisreads()
    ensures var a: Bytes := [0x61];
            var b: Bytes := [0x62];
            var refs := [DatarefInfo(a, 0, 1, 1, true, true), DatarefInfo(b, 2, 2, 1, true, false)];
            var values := [Float32(10), Float32(11), Float32(12)];
            && Consistent([true, true, true], values, refs, map[a := 0, b := 1])
            && ScalarReadAsWritten(values, refs, 1, Float32(0)) == Float32(11)
            && values[refs[1].start] == Float32(12)
  {
    var a: Bytes := [0x61];
    var b: Bytes := [0x62];
    var refs := [DatarefInfo(a, 0, 1, 1, true, true), DatarefInfo(b, 2, 2, 1, true, false)];
    assert a != b by { assert a[0] != b[0]; }
    assert |ElementName(a, 1)| == 4;
    var exist := map[a := 0, b := 1];
    assert forall n :: n in exist ==> n == a || n == b;
    forall k | 0 <= k < 3 ensures Owned(refs, k) {
      if k < 2 {
        assert Owns(refs[0], k);
      } else {
        assert Owns(refs[1], k);
      }
    }
  }

  /**
   * The bitmap update as written (XPlaneUDP.cpp:172) leaves a taken slot
   * without an owner: with a scalar at slot 0 and the next scalar placed at
   * slot 1, slot 2 is set as well, and no subscription holds it.
   */
  lemma MarkAsWrittenLeaks()
    ensures var a: Bytes := [0x61];
            var b: Bytes := [0x62];
            var before := [true, false, false];
            var refs := [DatarefInfo(a, 0, 0, 1, true, false), DatarefInfo(b, 1, 1, 1, true, false)];
            && FirstFit(before, 1) == 1
            && Covered(AfterAlloc(before, 1, 1), refs)
            && !Covered(MarkAsWritten(before, 1, 1), refs)
  {
    MarkAsWrittenOvershoots();
    var a: Bytes := [0x61];
    var b: Bytes := [0x62];
    var refs := [DatarefInfo(a, 0, 0, 1, true, false), DatarefInfo(b, 1, 1, 1, true, false)];
    var after := AfterAlloc([true, false, false], 1, 1);
    forall k | 0 <= k < |after| && after[k] ensures Owned(refs, k) {
      assert k < 2;
      assert Owns(refs[k], k);
    }
    assert MarkAsWritten([true, false, false], 1, 1)[2];
    assert forall g :: 0 <= g < |refs| ==> !Owns(refs[g], 2);
    assert !Owned(refs, 2);
  }

  // ------------------------------------------------------- container copies

  /** `std::ranges::fill(container | std::views::take(n), v)`. */
  method FillPrefix(container: array<Float32>, v: Float32, n: nat)
    requires n <= container.Length
    modifies container
    ensures container[..] == Fill(v, n) + old(container[..])[n..]
  {
    for j := 0 to n
      invariant forall k :: 0 <= k < container.Length ==> container[k] == if k < j then v else old(container[k])
    {
      container[j] := v;
    }
    assert container[..] == Fill(v, n) + old(container[..])[n..];
  }

  /** `std::ranges::copy(src, container.begin())`, for a source no longer than the container. */
  method CopyPrefix(container: array<Float32>, src: seq<Float32>)
    requires |src| <= container.Length
    modifies container
    ensures container[..] == src + old(container[..])[|src|..]
  {
    for j := 0 to |src|
      invariant forall k :: 0 <= k < container.Length ==> container[k] == if k < j then src[k] else old(container[k])
    {
      container[j] := src[j];
    }
    assert container[..] == src + old(container[..])[|src|..];
  }

  // ------------------------------------------------------------------ class

  class XPlaneUdp {
    var dataRefs: seq<DatarefInfo>
    var values: seq<Float32>
    var space: seq<bool>
    var exist: map<Bytes, nat>
    var info: PlaneInfo
    /** The datagrams handed to `sendData`, oldest first. */
    ghost var outbox: seq<Bytes>

    ghost predicate Valid()
      reads this`space, this`values, this`dataRefs, this`exist
    {
      Consistent(space, values, dataRefs, exist)
    }

    /** A client with nothing subscribed and the initial pose (track -1). */
    constructor()
      ensures Valid()
      ensures dataRefs == [] && values == [] && space == [] && exist == map[]
      ensures info == INITIAL_PLANE_INFO && outbox == []
    {
      dataRefs := [];
      values := [];
      space := [];
      exist := map[];
      info := INITIAL_PLANE_INFO;
      outbox := [];
      InitiallyConsistent();
    }

    /** `sendData`: the datagram is queued for the simulator. */
    method SendData(data: Bytes)
      modifies this`outbox
      ensures outbox == old(outbox) + [data]
    {
      outbox := outbox + [data];
    }

    /** `pack(buffer, 0, fields...)` then `sendData(buffer)`: the buffer, once packed, is the datagram sent. */
    method PackAndSend(buffer: array<byte>, fields: seq<Field>, ghost frame: Bytes)
      requires |fields| >= 1 && TotalWidth(fields) <= buffer.Length
      requires PackInto(buffer[..], 0, fields) == frame
      modifies buffer, this`outbox
      ensures buffer[..] == frame && outbox == old(outbox) + [frame]
    {
      var end := Pack(buffer, 0, fields);
      SendData(buffer[..]);
    }

    /** A request for `name` at slot `slot`, packed into a fresh 413-byte buffer and sent. */
    method SendRequest(freq: int32, slot: nat, name: Bytes)
      requires |name| <= RREF_NAME_CAPACITY
      modifies this`outbox
      ensures outbox == old(outbox) + [RrefRequest(freq, slot, name)]
    {
      var buffer := new byte[RREF_BUFFER](_ => 0);
      assert buffer[..] == Zeros(RREF_BUFFER);
      PackAndSend(buffer, RrefFields(freq, slot, name), RrefRequest(freq, slot, name));
    }

    /** The loop of `addDatarefArray`: one request per element, each in a fresh buffer. */
    method SendArrayRequests(freq: int32, start: nat, base: Bytes, n: nat)
      requires n == 0 || |ElementName(base, n - 1)| <= RREF_NAME_CAPACITY
      modifies this`outbox
      ensures outbox == old(outbox) + ArrayRequests(freq, start, base, n)
    {
      for i := 0 to n
        invariant i == 0 || |ElementName(base, i - 1)| <= RREF_NAME_CAPACITY
        invariant outbox == old(outbox) + ArrayRequests(freq, start, base, i)
      {
        ElementNameLengthMonotone(base, i, n - 1);
        ArrayRequestsStep(freq, start, base, i);
        SendRequest(freq, start + i, ElementName(base, i));
      }
    }

    /**
     * The loop of `changeDatarefFreq` for an array: one request per element,
     * all packed into the same buffer. Each name is at least as long as the
     * one before, so the bytes left over from it are overwritten or zero.
     */
    method ResendArrayRequests(freq: int32, start: nat, base: Bytes, n: nat)
      requires n == 0 || |ElementName(base, n - 1)| <= RREF_NAME_CAPACITY
      modifies this`outbox
      ensures outbox == old(outbox) + ArrayRequests(freq, start, base, n)
    {
      var buffer := new byte[RREF_BUFFER](_ => 0);
      assert buffer[..] == Zeros(RREF_BUFFER);
      for i := 0 to n
        invariant i == 0 || |ElementName(base, i - 1)| <= RREF_NAME_CAPACITY
        invariant outbox == old(outbox) + ArrayRequests(freq, start, base, i)
        invariant buffer[..] == if i == 0 then Zeros(RREF_BUFFER) else RrefRequest(freq, start + i - 1, ElementName(base, i - 1))
      {
        SendNextRequest(buffer, freq, start, base, n, i);
        ArrayRequestsStep(freq, start, base, i);
      }
    }

    /** One pass of the array loop of `changeDatarefFreq`: request `i` packed into the reused buffer and sent. */
    method SendNextRequest(buffer: array<byte>, freq: int32, start: nat, base: Bytes, n: nat, i: nat)
      requires i < n && |ElementName(base, n - 1)| <= RREF_NAME_CAPACITY
      requires i == 0 || |ElementName(base, i - 1)| <= RREF_NAME_CAPACITY
      requires buffer[..] == if i == 0 then Zeros(RREF_BUFFER) else RrefRequest(freq, start + i - 1, ElementName(base, i - 1))
      modifies buffer, this`outbox
      ensures |ElementName(base, i)| <= RREF_NAME_CAPACITY
      ensures buffer[..] == RrefRequest(freq, start + i, ElementName(base, i))
      ensures outbox == old(outbox) + [RrefRequest(freq, start + i, ElementName(base, i))]
    {
      var name := ElementName(base, i);
      NextRequestInBuffer(freq, start, base, n, i, buffer[..]);
      PackAndSend(buffer, RrefFields(freq, start + i, name), RrefRequest(freq, start + i, name));
    }

    /** `extendSpace`: the value table grows with zeros until it has a slot per bit. */
    method ExtendSpace()
      requires |values| <= |space|
      modifies this`values
      ensures values == old(values) + ZeroFloats(|space| - |old(values)|)
    {
      while |values| < |space|
        invariant |old(values)| <= |values| <= |space|
        invariant values == old(values) + ZeroFloats(|values| - |old(values)|)
        decreases |space| - |values|
      {
        assert ZeroFloats(|values| - |old(values)|) + [Float32(0)] == ZeroFloats(|values| + 1 - |old(values)|);
        values := values + [Float32(0)];
      }
    }

    /**
     * The scan of `findSpace(length)`: it counts the free bits of the current
     * run and stops as soon as the count reaches `length` (and at least one),
     * returning where the run began; past the end it returns the bitmap's size.
     */
    method ScanFreeRun(length: nat) returns (start: nat)
      ensures start == FirstFit(space, length)
    {
      ghost var l := Probe(length);
      var begin, count := 0, 0;
      var i := 0;
      while i < |space|
        invariant 0 <= i <= |space| && count <= i
        invariant count > 0 ==> begin == i - count
        invariant forall k :: i - count <= k < i ==> !space[k]
        invariant count < l
        invariant FirstFit(space, length) == FirstFitFrom(space, l, i - count)
      {
        if !space[i] {
          if count == 0 {
            begin := i;
          }
          count := count + 1;
          if count >= length {
            assert FreeRun(space, begin, l);
            FirstFitAtRun(space, l, begin);
            return begin;
          }
        } else {
          forall s | i - count <= s <= i ensures !FreeRun(space, s, l) {
            if s + l <= |space| {
              assert space[i];
            }
          }
          FirstFitSkip(space, l, i - count, i + 1);
          count := 0;
        }
        i := i + 1;
      }
      FirstFitPastEnd(space, l, i - count);
      start := |space|;
    }

    /**
     * `findSpace(length)`: first fit over the bitmap. The run found is marked
     * taken; without one the bitmap grows by `length` taken bits. The value
     * table then grows to match.
     */
    method FindSpace(length: nat) returns (start: nat)
      requires |values| <= |space|
      modifies this`space, this`values
      ensures start == FirstFit(old(space), length)
      ensures space == AfterAlloc(old(space), length, start)
      ensures values == old(values) + ZeroFloats(|space| - |old(values)|)
    {
      start := ScanFreeRun(length);
      if start < |space| {
        space := Mark(space, start, length, true);
        ExtendSpace();
        return;
      }
      for j := 0 to length
        invariant space == old(space) + Ones(j) && values == old(values)
      {
        space := space + [true];
      }
      ExtendSpace();
      start := |space| - length;
    }

    /**
     * What `addDataref` and `addDatarefArray` do for a new name: `length`
     * slots taken by first fit, the subscription requests sent, the
     * subscription appended, and the name registered to its handle.
     */
    method Subscribe(name: Bytes, length: nat, freq: int32, isArray: bool) returns (start: nat)
      requires Valid() && name !in exist
      requires (isArray || length == 1) && NamesFit(DatarefInfo(name, 0, length - 1, freq, true, isArray))
      modifies this`dataRefs, this`space, this`values, this`exist, this`outbox
      ensures Valid()
      ensures start == FirstFit(old(space), length)
      ensures var r := DatarefInfo(name, start, start + length - 1, freq, true, isArray);
              && dataRefs == old(dataRefs) + [r]
              && space == AfterAlloc(old(space), length, start)
              && values == old(values) + ZeroFloats(|space| - |old(values)|)
              && exist == old(exist)[name := |old(dataRefs)|]
              && outbox == old(outbox) + SubscriptionRequests(freq, r)
    {
      start := FindSpace(length);
      var r := DatarefInfo(name, start, start + length - 1, freq, true, isArray);
      assert Length(r) == length && r.name == name;
      if isArray {
        SendArrayRequests(freq, start, name, length);
      } else {
        SendRequest(freq, start, name);
      }
      AddKeepsConsistent(old(space), old(values), dataRefs, exist, r);
      assert space == AfterAlloc(old(space), Length(r), r.start);
      exist := exist[r.name := |dataRefs|];
      dataRefs := dataRefs + [r];
    }

    /**
     * `addDataref(dataref, freq, index)`: subscribes to `dataref`, or to its
     * element `index` when that is not -1. A name already registered returns
     * its handle and changes nothing; otherwise the subscription takes the
     * first free slot, a request is sent, and the name is registered.
     */
    method AddDataref(dataref: Bytes, freq: int32, index: int) returns (h: DatarefIndex)
      requires Valid()
      requires |SubscriptionName(dataref, index)| <= RREF_NAME_CAPACITY
      modifies this`dataRefs, this`space, this`values, this`exist, this`outbox
      ensures Valid() && h.idx < |dataRefs| && dataRefs[h.idx].name == SubscriptionName(dataref, index)
      ensures var name := SubscriptionName(dataref, index);
              if name in old(exist) then
                && h.idx == old(exist)[name]
                && dataRefs == old(dataRefs) && space == old(space) && values == old(values)
                && exist == old(exist) && outbox == old(outbox)
              else
                var start := FirstFit(old(space), 1);
                && h.idx == |old(dataRefs)|
                && dataRefs == old(dataRefs) + [DatarefInfo(name, start, start, freq, true, false)]
                && space == AfterAlloc(old(space), 1, start)
                && values == old(values) + ZeroFloats(|space| - |old(values)|)
                && exist == old(exist)[name := h.idx]
                && outbox == old(outbox) + [RrefRequest(freq, start, name)]
    {
      var name := SubscriptionName(dataref, index);
      if name in exist {
        h := DatarefIndex(exist[name]);
      } else {
        var start := Subscribe(name, 1, freq, false);
        h := DatarefIndex(|dataRefs| - 1);
      }
    }

    /**
     * `addDatarefArray(dataref, length, freq)`: subscribes to the `length`
     * elements of an array dataref at consecutive slots, one request per
     * element, and registers the array under its base name.
     */
    method AddDatarefArray(dataref: Bytes, length: int, freq: int32) returns (h: DatarefIndex)
      requires Valid()
      requires 0 <= length && (length == 0 || |ElementName(dataref, length - 1)| <= RREF_NAME_CAPACITY)
      modifies this`dataRefs, this`space, this`values, this`exist, this`outbox
      ensures Valid() && h.idx < |dataRefs| && dataRefs[h.idx].name == dataref
      ensures if dataref in old(exist) then
                && h.idx == old(exist)[dataref]
                && dataRefs == old(dataRefs) && space == old(space) && values == old(values)
                && exist == old(exist) && outbox == old(outbox)
              else
                var start := FirstFit(old(space), length);
                && h.idx == |old(dataRefs)|
                && dataRefs == old(dataRefs) + [DatarefInfo(dataref, start, start + length - 1, freq, true, true)]
                && space == AfterAlloc(old(space), length, start)
                && values == old(values) + ZeroFloats(|space| - |old(values)|)
                && exist == old(exist)[dataref := h.idx]
                && outbox == old(outbox) + ArrayRequests(freq, start, dataref, length)
    {
      if dataref in exist {
        h := DatarefIndex(exist[dataref]);
      } else {
        var start := Subscribe(dataref, length, freq, true);
        h := DatarefIndex(|dataRefs| - 1);
      }
    }

    /**
     * `getDataref(handle, value, defaultValue)`: the latest value of a
     * receiving subscription, read from its first slot, or the default for
     * a stopped one.
     */
    method GetDataref(h: DatarefIndex, defaultValue: Float32) returns (ok: bool, value: Float32)
      requires Valid() && h.idx < |dataRefs|
      requires dataRefs[h.idx].available ==> Length(dataRefs[h.idx]) >= 1
      ensures ok == dataRefs[h.idx].available
      ensures ok ==> 0 <= dataRefs[h.idx].start < |values| && value == values[dataRefs[h.idx].start]
      ensures !ok ==> value == defaultValue
    {
      var r := dataRefs[h.idx];
      if !r.available {
        return false, defaultValue;
      }
      return true, values[r.start];
    }

    /**
     * `getDataref(handle, container, defaultValue)`: copies the subscription's
     * values into the front of `container`, as many as both hold; for a
     * stopped subscription the same prefix is filled with the default.
     * The rest of the container is left as it was.
     */
    method GetDatarefArray(h: DatarefIndex, container: array<Float32>, defaultValue: Float32) returns (ok: bool)
      requires Valid() && h.idx < |dataRefs|
      modifies container
      ensures var r := dataRefs[h.idx];
              var n := Min(Length(r), container.Length);
              && ok == r.available
              && 0 <= n
              && (ok ==> 0 <= r.start && r.start + n <= |values|)
              && container[..] == (if ok then values[r.start..r.start + n] else Fill(defaultValue, n)) + old(container[..])[n..]
    {
      var r := dataRefs[h.idx];
      assert WellFormed(r) && Held(space, r);
      var n := Min(Length(r), container.Length);
      if !r.available {
        FillPrefix(container, defaultValue, n);
        return false;
      }
      CopyPrefix(container, values[r.start..r.start + n]);
      return true;
    }

    /**
     * `changeDatarefFreq(handle, freq)`: frequency 0 stops a receiving
     * subscription and frees its slots, sending nothing. Any other frequency
     * first gives a stopped subscription a fresh range of slots, then asks
     * again for every element at the new frequency. The frequency stored in
     * the subscription is left as it was.
     */
    method ChangeDatarefFreq(h: DatarefIndex, freq: int32)
      requires Valid() && h.idx < |dataRefs|
      modifies this`dataRefs, this`space, this`values, this`outbox
      ensures Valid()
      ensures var r := old(dataRefs)[h.idx];
              && 0 <= r.start && 0 <= Length(r)
              && (r.available ==> r.start + Length(r) <= |old(space)|)
      ensures freq == 0 ==> values == old(values) && outbox == old(outbox)
      ensures freq == 0 && old(dataRefs)[h.idx].available ==>
                var r := old(dataRefs)[h.idx];
                && dataRefs == old(dataRefs)[h.idx := r.(available := false)]
                && space == Mark(old(space), r.start, Length(r), false)
      ensures freq == 0 && !old(dataRefs)[h.idx].available ==>
                dataRefs == old(dataRefs) && space == old(space)
      ensures freq != 0 && old(dataRefs)[h.idx].available ==>
                && dataRefs == old(dataRefs) && space == old(space) && values == old(values)
                && outbox == old(outbox) + SubscriptionRequests(freq, old(dataRefs)[h.idx])
      ensures freq != 0 && !old(dataRefs)[h.idx].available ==>
                var r := old(dataRefs)[h.idx];
                var start := FirstFit(old(space), Length(r));
                var r' := r.(available := true, start := start, end := start + Length(r) - 1);
                && dataRefs == old(dataRefs)[h.idx := r']
                && space == AfterAlloc(old(space), Length(r), start)
                && values == old(values) + ZeroFloats(|space| - |old(values)|)
                && outbox == old(outbox) + SubscriptionRequests(freq, r')
    {
      var r := dataRefs[h.idx];
      assert WellFormed(r) && Held(space, r);
      if freq == 0 {
        if r.available {
          StopReceiving(h);
        }
        return;
      }
      if !r.available {
        r := Resume(h);
      }
      Resubscribe(r, freq);
    }

    /** Frequency 0 for a receiving subscription: it is marked stopped and its slots are cleared. */
    method StopReceiving(h: DatarefIndex)
      requires Valid() && h.idx < |dataRefs| && dataRefs[h.idx].available
      modifies this`dataRefs, this`space
      ensures Valid()
      ensures var r := old(dataRefs)[h.idx];
              && 0 <= r.start && r.start + Length(r) <= |old(space)|
              && dataRefs == old(dataRefs)[h.idx := r.(available := false)]
              && space == Mark(old(space), r.start, Length(r), false)
    {
      var r := dataRefs[h.idx];
      ReleaseKeepsConsistent(space, values, dataRefs, exist, h.idx);
      dataRefs := dataRefs[h.idx := r.(available := false)];
      space := Mark(space, r.start, Length(r), false);
    }

    /** A stopped subscription is given a fresh range of as many slots, placed by first fit. */
    method Resume(h: DatarefIndex) returns (r': DatarefInfo)
      requires Valid() && h.idx < |dataRefs| && !dataRefs[h.idx].available
      modifies this`dataRefs, this`space, this`values
      ensures Valid() && WellFormed(r')
      ensures var r := old(dataRefs)[h.idx];
              var start := FirstFit(old(space), Length(r));
              && 0 <= Length(r)
              && r' == r.(available := true, start := start, end := start + Length(r) - 1)
              && dataRefs == old(dataRefs)[h.idx := r']
              && space == AfterAlloc(old(space), Length(r), start)
              && values == old(values) + ZeroFloats(|space| - |old(values)|)
    {
      var r := dataRefs[h.idx];
      assert WellFormed(r);
      var size := Length(r);
      var start := FindSpace(size);
      r' := r.(available := true, start := start, end := start + size - 1);
      assert Length(r') == size;
      RenewKeepsConsistent(old(space), old(values), dataRefs, exist, h.idx, r');
      assert space == AfterAlloc(old(space), Length(r'), r'.start);
      dataRefs := dataRefs[h.idx := r'];
    }

    /** The requests `changeDatarefFreq` sends: the name itself for a scalar, one per element for an array. */
    method Resubscribe(r: DatarefInfo, freq: int32)
      requires WellFormed(r)
      modifies this`outbox
      ensures outbox == old(outbox) + SubscriptionRequests(freq, r)
    {
      if !r.isArray {
        SendRequest(freq, r.start, r.name);
      } else {
        ResendArrayRequests(freq, r.start, r.name, Length(r));
      }
    }

    /**
     * `setDataref(dataref, value, index)`: sends one write of `value` to
     * `dataref`, or to its element `index` when that is not -1.
     */
    method SetDataref(dataref: Bytes, value: Float32, index: int)
      requires |SubscriptionName(dataref, index)| <= DREF_NAME_CAPACITY
      modifies this`outbox
      ensures outbox == old(outbox) + [DrefRequest(value, SubscriptionName(dataref, index))]
    {
      var buffer := new byte[DREF_BUFFER](_ => 0);
      var name := SubscriptionName(dataref, index);
      assert buffer[..] == Zeros(DREF_BUFFER);
      PackAndSend(buffer, DrefFields(value, name), DrefRequest(value, name));
    }

    /**
     * `setDatarefArray(dataref, value)`: one write per element, element `i`
     * to `dataref[i]`, all packed into the same buffer.
     */
    method SetDatarefArray(dataref: Bytes, value: seq<Float32>)
      requires |value| == 0 || |ElementName(dataref, |value| - 1)| <= DREF_NAME_CAPACITY
      modifies this`outbox
      ensures outbox == old(outbox) + WriteRequests(dataref, value)
    {
      var buffer := new byte[DREF_BUFFER](_ => 0);
      assert buffer[..] == Zeros(DREF_BUFFER);
      for i := 0 to |value|
        invariant i == 0 || |ElementName(dataref, i - 1)| <= DREF_NAME_CAPACITY
        invariant outbox == old(outbox) + WriteRequests(dataref, value[..i])
        invariant buffer[..] == if i == 0 then Zeros(DREF_BUFFER) else DrefRequest(value[i - 1], ElementName(dataref, i - 1))
      {
        SendNextWrite(buffer, dataref, value, i);
        WriteRequestsStep(dataref, value, i);
      }
      assert value[..|value|] == value;
    }

    /** One pass of the loop of `setDatarefArray`: write `i` packed into the reused buffer and sent. */
    method SendNextWrite(buffer: array<byte>, dataref: Bytes, value: seq<Float32>, i: nat)
      requires i < |value| && |ElementName(dataref, |value| - 1)| <= DREF_NAME_CAPACITY
      requires i == 0 || |ElementName(dataref, i - 1)| <= DREF_NAME_CAPACITY
      requires buffer[..] == if i == 0 then Zeros(DREF_BUFFER) else DrefRequest(value[i - 1], ElementName(dataref, i - 1))
      modifies buffer, this`outbox
      ensures |ElementName(dataref, i)| <= DREF_NAME_CAPACITY
      ensures buffer[..] == DrefRequest(value[i], ElementName(dataref, i))
      ensures outbox == old(outbox) + [DrefRequest(value[i], ElementName(dataref, i))]
    {
      var name := ElementName(dataref, i);
      NextWriteInBuffer(dataref, value, i, buffer[..]);
      PackAndSend(buffer, DrefFields(value[i], name), DrefRequest(value[i], name));
    }

    /** `addPlaneInfo(freq)`: sends the pose query at the given frequency. */
    method AddPlaneInfo(freq: int)
      modifies this`outbox
      ensures outbox == old(outbox) + [RposRequest(freq)]
    {
      var sentence := RPOS_HEAD + Decimal(freq);
      FieldsCons(Str(sentence), []);
      var buffer := new byte[|sentence|](_ => 0);
      assert buffer[..] == Zeros(|sentence|);
      var end := Pack(buffer, 0, [Str(sentence)]);
      SendData(buffer[..]);
    }

    /** `getPlaneInfo`: the pose most recently received. */
    method GetPlaneInfo() returns (p: PlaneInfo)
      ensures p == info
    {
      p := info;
    }

    /** The loop of `receiveDataProcess`: each pair in order stores its value at its slot index. */
    method StorePairs(data: Bytes)
      requires |data| >= HEADER_LENGTH && (|data| - HEADER_LENGTH) % 8 == 0
      modifies this`values
      ensures values == WritePairs(old(values), RrefPairs(data))
    {
      ghost var pairs := RrefPairs(data);
      var i := HEADER_LENGTH;
      while i < |data|
        invariant HEADER_LENGTH <= i <= |data| && (i - HEADER_LENGTH) % 8 == 0
        invariant values == WritePairs(old(values), pairs[..(i - HEADER_LENGTH) / 8])
        decreases |data| - i
      {
        var p := PairAt(data, i);
        ghost var j := (i - HEADER_LENGTH) / 8;
        assert pairs[j] == p;
        WritePairsStep(old(values), pairs, j);
        if 0 <= p.index < |values| {
          values := values[p.index := p.value];
        }
        i := i + 8;
      }
      assert pairs[..(i - HEADER_LENGTH) / 8] == pairs;
    }

    /**
     * `receiveDataProcess(data)`: an RREF response whose payload is whole
     * 8-byte pairs stores each pair's value at its slot index, in order; a
     * pose response carrying whole 64-byte records replaces the pose with the
     * first record. Anything else changes nothing.
     */
    method ReceiveDataProcess(data: Bytes)
      requires Valid() && |data| < TWO_64
      modifies this`values, this`info
      ensures Valid()
      ensures if HasTag(data, RREF_HEAD) then
                && info == old(info)
                && values == if |data| >= HEADER_LENGTH && (|data| - HEADER_LENGTH) % 8 == 0
                             then WritePairs(old(values), RrefPairs(data)) else old(values)
              else if HasTag(data, RPOS_HEAD) && |data| >= HEADER_LENGTH + SIZE_OF_PLANE_INFO && (|data| - HEADER_LENGTH) % 64 == 0 then
                values == old(values) && info == UnpackPlaneInfo(data, HEADER_LENGTH)
              else
                values == old(values) && info == old(info)
    {
      if HasTag(data, RREF_HEAD) {
        RrefLengthOkMeans(|data|);
        if !RrefLengthOk(|data|) {
          return;
        }
        StorePairs(data);
      } else if HasTag(data, RPOS_HEAD) {
        RposLengthOkMeans(|data|);
        if !RposLengthOk(|data|) {
          return;
        }
        info := UnpackPlaneInfo(data, HEADER_LENGTH);
      }
    }
  }
}
