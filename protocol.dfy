/**
 * The frames of the simulator's UDP protocol that the client builds and
 * parses: the 5-byte tags (XPlaneUDP.hpp:25-29), the pose record layout
 * (XPlaneUDP.hpp:47-51), the outbound "get dataref" (RREF), "set dataref"
 * (DREF) and pose-query (RPOS) frames, and the inbound rules of
 * `receiveDataProcess` (XPlaneUDP.cpp:223-238).
 */
module Protocol {
  import opened Wire
  import opened Format

  // ---------------------------------------------------------------- tags

  const HEADER_LENGTH: nat := 5
  const RREF_HEAD: Bytes := [0x52, 0x52, 0x45, 0x46, 0]  // "RREF\0"
  const DREF_HEAD: Bytes := [0x44, 0x52, 0x45, 0x46, 0]  // "DREF\0"
  const RPOS_HEAD: Bytes := [0x52, 0x50, 0x4F, 0x53, 0]  // "RPOS\0"
  const BECN_HEAD: Bytes := [0x42, 0x45, 0x43, 0x4E, 0]  // "BECN\0"

  /** Four upper-case ASCII letters and a NUL: `HEADER_LENGTH` bytes. */
  predicate IsTag(head: Bytes)
  {
    && |head| == HEADER_LENGTH
    && head[4] == 0
    && forall j :: 0 <= j < 4 ==> 0x41 <= head[j] <= 0x5A
  }

  lemma HeadersAreTags()
    ensures IsTag(RREF_HEAD) && IsTag(DREF_HEAD) && IsTag(RPOS_HEAD) && IsTag(BECN_HEAD)
    ensures RREF_HEAD[..4] == Ascii("RREF") && DREF_HEAD[..4] == Ascii("DREF")
    ensures RPOS_HEAD[..4] == Ascii("RPOS") && BECN_HEAD[..4] == Ascii("BECN")
    ensures RREF_HEAD[..4] != RPOS_HEAD[..4]
  {
    assert RREF_HEAD[..4][1] == 0x52 && RPOS_HEAD[..4][1] == 0x50;
  }

  /**
   * A received frame is classified by its first four bytes. A datagram
   * shorter than four bytes matches no tag.
   */
  predicate HasTag(data: Bytes, head: Bytes)
    requires |head| == HEADER_LENGTH
  {
    |data| >= 4 && data[..4] == head[..4]
  }

  // ---------------------------------------------------------- pose record

  /** `XPlaneUdp::PlaneInfo`: three doubles, then ten floats. */
  datatype PlaneInfo = PlaneInfo(
    lon: Float64, lat: Float64, alt: Float64,
    agl: Float32, pitch: Float32, track: Float32, roll: Float32,
    vX: Float32, vY: Float32, vZ: Float32,
    rollRate: Float32, pitchRate: Float32, yawRate: Float32)

  /** The bit pattern of the float -1.0. */
  const MINUS_ONE: Float32 := Float32(0xBF80_0000)

  /** `PlaneInfo info{.track = -1}`: every field zero except `track`. */
  const INITIAL_PLANE_INFO: PlaneInfo :=
    PlaneInfo(Float64(0), Float64(0), Float64(0),
              Float32(0), Float32(0), MINUS_ONE, Float32(0),
              Float32(0), Float32(0), Float32(0),
              Float32(0), Float32(0), Float32(0))

  /** `sizeof(PlaneInfo)`: the doubles fill 24 bytes, so the floats need no padding. */
  const SIZE_OF_PLANE_INFO: nat := 64

  /** The record's three `double` members, in declaration order. */
  function PlaneDoubles(p: PlaneInfo): seq<Float64>
  {
    [p.lon, p.lat, p.alt]
  }

  /** The record's ten `float` members, in declaration order. */
  function PlaneFloats(p: PlaneInfo): seq<Float32>
  {
    [p.agl, p.pitch, p.track, p.roll, p.vX, p.vY, p.vZ, p.rollRate, p.pitchRate, p.yawRate]
  }

  /**
   * The record's image in memory, the bytes a `memcpy` of it copies: the
   * doubles at offsets 0, 8 and 16, then the floats from 24 on, four bytes apart.
   */
  function PlaneInfoImage(p: PlaneInfo): (b: Bytes)
    ensures |b| == SIZE_OF_PLANE_INFO
  {
    DoublesImage(PlaneDoubles(p)) + FloatsImage(PlaneFloats(p))
  }

  /**
   * `unpack(buf, offset, info)`: one `memcpy` of the whole 64-byte record,
   * so each member is read at its offset in the struct.
   */
  function UnpackPlaneInfo(buf: Bytes, offset: nat): PlaneInfo
    requires offset + SIZE_OF_PLANE_INFO <= |buf|
  {
    PlaneInfo(DoubleAt(buf, offset), DoubleAt(buf, offset + 8), DoubleAt(buf, offset + 16),
              FloatAt(buf, offset + 24), FloatAt(buf, offset + 28), FloatAt(buf, offset + 32),
              FloatAt(buf, offset + 36), FloatAt(buf, offset + 40), FloatAt(buf, offset + 44),
              FloatAt(buf, offset + 48), FloatAt(buf, offset + 52), FloatAt(buf, offset + 56),
              FloatAt(buf, offset + 60))
  }

  /** The two runs of a record image, where it was copied to `offset`. */
  lemma PlaneInfoRuns(buf: Bytes, offset: nat, p: PlaneInfo)
    requires offset + SIZE_OF_PLANE_INFO <= |buf|
    requires buf[offset..offset + SIZE_OF_PLANE_INFO] == PlaneInfoImage(p)
    ensures buf[offset..offset + 24] == DoublesImage(PlaneDoubles(p))
    ensures buf[offset + 24..offset + 24 + 40] == FloatsImage(PlaneFloats(p))
  {
    SliceOfSlice(buf, offset, offset + SIZE_OF_PLANE_INFO, 24);
  }

  /** The record's doubles read back from its image. */
  lemma PlaneDoublesAt(buf: Bytes, offset: nat, xs: seq<Float64>)
    requires |xs| == 3 && offset + 24 <= |buf| && buf[offset..offset + 24] == DoublesImage(xs)
    ensures DoubleAt(buf, offset) == xs[0]
    ensures DoubleAt(buf, offset + 8) == xs[1]
    ensures DoubleAt(buf, offset + 16) == xs[2]
  {
    DoubleFromImage(buf, offset, xs, 0);
    DoubleFromImage(buf, offset, xs, 1);
    DoubleFromImage(buf, offset, xs, 2);
  }

  /** The record's floats read back from its image. */
  lemma PlaneFloatsAt(buf: Bytes, offset: nat, xs: seq<Float32>)
    requires |xs| == 10 && offset + 40 <= |buf| && buf[offset..offset + 40] == FloatsImage(xs)
    ensures FloatAt(buf, offset) == xs[0] && FloatAt(buf, offset + 4) == xs[1]
    ensures FloatAt(buf, offset + 8) == xs[2] && FloatAt(buf, offset + 12) == xs[3]
    ensures FloatAt(buf, offset + 16) == xs[4] && FloatAt(buf, offset + 20) == xs[5]
    ensures FloatAt(buf, offset + 24) == xs[6] && FloatAt(buf, offset + 28) == xs[7]
    ensures FloatAt(buf, offset + 32) == xs[8] && FloatAt(buf, offset + 36) == xs[9]
  {
    FloatFromImage(buf, offset, xs, 0);
    FloatFromImage(buf, offset, xs, 1);
    FloatFromImage(buf, offset, xs, 2);
    FloatFromImage(buf, offset, xs, 3);
    FloatFromImage(buf, offset, xs, 4);
    FloatFromImage(buf, offset, xs, 5);
    FloatFromImage(buf, offset, xs, 6);
    FloatFromImage(buf, offset, xs, 7);
    FloatFromImage(buf, offset, xs, 8);
    FloatFromImage(buf, offset, xs, 9);
  }

  /** A record copied to `offset` is read back unchanged. */
  lemma PlaneInfoAt(buf: Bytes, offset: nat, p: PlaneInfo)
    requires offset + SIZE_OF_PLANE_INFO <= |buf|
    requires buf[offset..offset + SIZE_OF_PLANE_INFO] == PlaneInfoImage(p)
    ensures UnpackPlaneInfo(buf, offset) == p
  {
    PlaneInfoRuns(buf, offset, p);
    PlaneDoublesAt(buf, offset, PlaneDoubles(p));
    PlaneFloatsAt(buf, offset + 24, PlaneFloats(p));
  }

  // ------------------------------------------------------ outbound frames

  /** The zero-initialised `std::vector<char>(n)` every frame starts from. */
  function Zeros(n: nat): (z: Bytes)
    ensures |z| == n && forall k :: 0 <= k < n ==> z[k] == 0
  {
    seq(n, _ => 0)
  }

  const RREF_BUFFER: nat := 413
  const DREF_BUFFER: nat := 509

  /** After the tag and two int32 fields, a 413-byte request leaves 400 bytes for the name. */
  const RREF_NAME_CAPACITY: nat := 400

  /** After the tag, a float and the NUL, a 509-byte write leaves 499 bytes for the name. */
  const DREF_NAME_CAPACITY: nat := 499

  function RrefFields(freq: int32, slot: nat, name: Bytes): (fields: seq<Field>)
    ensures TotalWidth(fields) == 13 + |name|
  {
    EncodeFour([Str(RREF_HEAD), Int32(freq), Int32(slot), Str(name)]);
    [Str(RREF_HEAD), Int32(freq), Int32(slot), Str(name)]
  }

  /**
   * A "get dataref" request: tag, frequency as int32, slot as int32, name,
   * packed at offset 0 into a zeroed 413-byte buffer.
   */
  function RrefRequest(freq: int32, slot: nat, name: Bytes): (frame: Bytes)
    requires |name| <= RREF_NAME_CAPACITY
    ensures |frame| == RREF_BUFFER
  {
    PackInto(Zeros(RREF_BUFFER), 0, RrefFields(freq, slot, name))
  }

  /** Packing into a zeroed buffer gives the fields' bytes laid end to end, then zero padding. */
  lemma PackedFrame(size: nat, fields: seq<Field>)
    requires TotalWidth(fields) <= size
    ensures |PackInto(Zeros(size), 0, fields)| == size
    ensures PackInto(Zeros(size), 0, fields)[..TotalWidth(fields)] == EncodeAll(fields)
    ensures forall k :: TotalWidth(fields) <= k < size ==> PackInto(Zeros(size), 0, fields)[k] == 0
  {
    PackWritesInOrder(Zeros(size), 0, fields);
    SpliceAt(Zeros(size), 0, EncodeAll(fields));
  }

  /** Four fields laid end to end. */
  lemma EncodeFour(fields: seq<Field>)
    requires |fields| == 4
    ensures TotalWidth(fields) == Width(fields[0]) + Width(fields[1]) + Width(fields[2]) + Width(fields[3])
    ensures EncodeAll(fields) == Encode(fields[0]) + (Encode(fields[1]) + (Encode(fields[2]) + Encode(fields[3])))
  {
    var r1 := fields[1..];
    var r2 := r1[1..];
    var r3 := r2[1..];
    assert r1[0] == fields[1] && r2[0] == fields[2] && r3[0] == fields[3] && r3[1..] == [];
    assert EncodeAll(r3) == Encode(fields[3]) && TotalWidth(r3) == Width(fields[3]);
    assert EncodeAll(r2) == Encode(fields[2]) + EncodeAll(r3) && TotalWidth(r2) == Width(fields[2]) + TotalWidth(r3);
    assert EncodeAll(r1) == Encode(fields[1]) + EncodeAll(r2) && TotalWidth(r1) == Width(fields[1]) + TotalWidth(r2);
  }

  lemma SliceOfPrefix(f: Bytes, n: nat, i: nat, j: nat)
    requires i <= j <= n <= |f|
    ensures f[i..j] == f[..n][i..j]
  {
  }

  /** The slices of a buffer that starts with four byte strings. */
  lemma FourParts(f: Bytes, a: Bytes, b: Bytes, c: Bytes, d: Bytes)
    requires |a| + |b| + |c| + |d| <= |f|
    requires f[..|a| + |b| + |c| + |d|] == a + (b + (c + d))
    ensures f[..|a|] == a
    ensures f[|a|..|a| + |b|] == b
    ensures f[|a| + |b|..|a| + |b| + |c|] == c
    ensures f[|a| + |b| + |c|..|a| + |b| + |c| + |d|] == d
  {
    var n := |a| + |b| + |c| + |d|;
    var cd := c + d;
    var bcd := b + cd;
    assert (a + bcd)[..|a|] == a;
    SliceAfter(a, bcd, 0, |b|);
    SliceAfter(a, bcd, |b|, |b| + |c|);
    SliceAfter(a, bcd, |b| + |c|, |bcd|);
    SliceAfter(b, cd, 0, |c|);
    SliceAfter(b, cd, |c|, |cd|);
    SliceAfter(c, d, 0, |d|);
    SliceOfPrefix(f, n, 0, |a|);
    SliceOfPrefix(f, n, |a|, |a| + |b|);
    SliceOfPrefix(f, n, |a| + |b|, |a| + |b| + |c|);
    SliceOfPrefix(f, n, |a| + |b| + |c|, n);
  }

  /** Where each of four fields packed into a zeroed buffer lands. */
  lemma FourFieldFrame(size: nat, fields: seq<Field>)
    requires |fields| == 4 && TotalWidth(fields) <= size
    ensures TotalWidth(fields) == Width(fields[0]) + Width(fields[1]) + Width(fields[2]) + Width(fields[3])
    ensures |PackInto(Zeros(size), 0, fields)| == size
    ensures forall k :: TotalWidth(fields) <= k < size ==> PackInto(Zeros(size), 0, fields)[k] == 0
    ensures FourFields(PackInto(Zeros(size), 0, fields), fields)
  {
    EncodeFour(fields);
    PackedFrame(size, fields);
    FourFieldBytes(PackInto(Zeros(size), 0, fields), fields);
  }

  /** The four fields' bytes at their consecutive offsets in `f`. */
  predicate FourFields(f: Bytes, fields: seq<Field>)
    requires |fields| == 4
  {
    var w0, w1, w2, w3 := Width(fields[0]), Width(fields[1]), Width(fields[2]), Width(fields[3]);
    && w0 + w1 + w2 + w3 <= |f|
    && f[..w0] == Encode(fields[0])
    && f[w0..w0 + w1] == Encode(fields[1])
    && f[w0 + w1..w0 + w1 + w2] == Encode(fields[2])
    && f[w0 + w1 + w2..w0 + w1 + w2 + w3] == Encode(fields[3])
  }

  lemma FourFieldBytes(f: Bytes, fields: seq<Field>)
    requires |fields| == 4 && TotalWidth(fields) <= |f|
    requires f[..TotalWidth(fields)] == EncodeAll(fields)
    ensures FourFields(f, fields)
  {
    var a, b, c, d := Encode(fields[0]), Encode(fields[1]), Encode(fields[2]), Encode(fields[3]);
    assert |a| == Width(fields[0]) && |b| == Width(fields[1]) && |c| == Width(fields[2]) && |d| == Width(fields[3]);
    EncodeFour(fields);
    assert f[..|a| + |b| + |c| + |d|] == a + (b + (c + d));
    FourParts(f, a, b, c, d);
  }

  /**
   * What the simulator reads from a request: the tag, then the frequency and
   * the slot as int32 at offsets 5 and 9, then the name from offset 13 up to
   * the zero padding.
   */
  lemma RrefRequestLayout(freq: int32, slot: nat, name: Bytes)
    requires |name| <= RREF_NAME_CAPACITY && slot < 0x8000_0000
    ensures |RrefRequest(freq, slot, name)| == RREF_BUFFER
    ensures RrefRequest(freq, slot, name)[..HEADER_LENGTH] == RREF_HEAD
    ensures Decode(KInt32, RrefRequest(freq, slot, name)[5..9]) == Int32(freq)
    ensures Decode(KInt32, RrefRequest(freq, slot, name)[9..13]) == Int32(slot)
    ensures RrefRequest(freq, slot, name)[13..13 + |name|] == name
    ensures forall k :: 13 + |name| <= k < RREF_BUFFER ==> RrefRequest(freq, slot, name)[k] == 0
  {
    FourFieldFrame(RREF_BUFFER, RrefFields(freq, slot, name));
    DecodeEncode(Int32(freq));
    DecodeEncode(Int32(slot));
  }

  /**
   * Packing a request into a buffer that is already zero beyond the end of
   * the new request gives the same bytes as packing into a fresh buffer.
   */
  lemma RepackIntoZeroTail(buf: Bytes, fields: seq<Field>)
    requires TotalWidth(fields) <= |buf|
    requires forall k :: TotalWidth(fields) <= k < |buf| ==> buf[k] == 0
    ensures PackInto(buf, 0, fields) == PackInto(Zeros(|buf|), 0, fields)
  {
    PackWritesInOrder(buf, 0, fields);
    PackWritesInOrder(Zeros(|buf|), 0, fields);
    SpliceAt(buf, 0, EncodeAll(fields));
    SpliceAt(Zeros(|buf|), 0, EncodeAll(fields));
  }

  /** A request's padding starts right after the name. */
  lemma RrefRequestTail(freq: int32, slot: nat, name: Bytes)
    requires |name| <= RREF_NAME_CAPACITY
    ensures forall k :: 13 + |name| <= k < RREF_BUFFER ==> RrefRequest(freq, slot, name)[k] == 0
  {
    PackedFrame(RREF_BUFFER, RrefFields(freq, slot, name));
  }

  function DrefFields(value: Float32, name: Bytes): (fields: seq<Field>)
    ensures TotalWidth(fields) == 10 + |name|
  {
    EncodeFour([Str(DREF_HEAD), Float(value), Str(name), Char(0)]);
    [Str(DREF_HEAD), Float(value), Str(name), Char(0)]
  }

  /** A "set dataref" frame: tag, value as float, name, NUL, in a zeroed 509-byte buffer. */
  function DrefRequest(value: Float32, name: Bytes): (frame: Bytes)
    requires |name| <= DREF_NAME_CAPACITY
    ensures |frame| == DREF_BUFFER
  {
    PackInto(Zeros(DREF_BUFFER), 0, DrefFields(value, name))
  }

  /** What the simulator reads from a write: the tag, the float at offset 5, the NUL-terminated name at 9. */
  lemma DrefRequestLayout(value: Float32, name: Bytes)
    requires |name| <= DREF_NAME_CAPACITY
    ensures |DrefRequest(value, name)| == DREF_BUFFER
    ensures DrefRequest(value, name)[..HEADER_LENGTH] == DREF_HEAD
    ensures Decode(KFloat, DrefRequest(value, name)[5..9]) == Float(value)
    ensures DrefRequest(value, name)[9..9 + |name|] == name
    ensures forall k :: 9 + |name| <= k < DREF_BUFFER ==> DrefRequest(value, name)[k] == 0
  {
    var f := DrefRequest(value, name);
    FourFieldFrame(DREF_BUFFER, DrefFields(value, name));
    assert f[9 + |name|..10 + |name|] == [0];
    DecodeEncode(Float(value));
  }

  /** A write's padding starts right after its NUL. */
  lemma DrefRequestTail(value: Float32, name: Bytes)
    requires |name| <= DREF_NAME_CAPACITY
    ensures forall k :: 10 + |name| <= k < DREF_BUFFER ==> DrefRequest(value, name)[k] == 0
  {
    PackedFrame(DREF_BUFFER, DrefFields(value, name));
  }

  /**
   * Reusing the buffer of a request for a name no longer than the next one
   * gives the next request exactly as a fresh buffer would.
   */
  lemma RepackedRequest(buf: Bytes, freq: int32, prevSlot: nat, prevName: Bytes, slot: nat, name: Bytes)
    requires |prevName| <= |name| <= RREF_NAME_CAPACITY
    requires buf == RrefRequest(freq, prevSlot, prevName)
    ensures |buf| == RREF_BUFFER
    ensures PackInto(buf, 0, RrefFields(freq, slot, name)) == RrefRequest(freq, slot, name)
  {
    RrefRequestTail(freq, prevSlot, prevName);
    RepackIntoZeroTail(buf, RrefFields(freq, slot, name));
  }

  /**
   * Reusing the buffer of a write for a name no longer than the next one
   * gives the next write exactly as a fresh buffer would.
   */
  lemma RepackedWrite(buf: Bytes, prevValue: Float32, prevName: Bytes, value: Float32, name: Bytes)
    requires |prevName| <= |name| <= DREF_NAME_CAPACITY
    requires buf == DrefRequest(prevValue, prevName)
    ensures |buf| == DREF_BUFFER
    ensures PackInto(buf, 0, DrefFields(value, name)) == DrefRequest(value, name)
  {
    DrefRequestTail(prevValue, prevName);
    RepackIntoZeroTail(buf, DrefFields(value, name));
  }

  /**
   * The pose query `addPlaneInfo` sends: `std::format("{}{}\x00", RPOS_HEAD, freq)`
   * packed into a buffer of exactly its size. The format string is a C string,
   * so its own trailing NUL ends it and the sentence ends with the last digit.
   */
  function RposRequest(freq: int): (frame: Bytes)
    ensures |frame| == HEADER_LENGTH + |Decimal(freq)|
  {
    var sentence := RPOS_HEAD + Decimal(freq);
    FieldsCons(Str(sentence), []);
    PackInto(Zeros(|sentence|), 0, [Str(sentence)])
  }

  lemma RposRequestIsSentence(freq: int)
    ensures RposRequest(freq) == RPOS_HEAD + Decimal(freq)
    ensures RposRequest(freq)[..HEADER_LENGTH] == RPOS_HEAD
  {
    var sentence := RPOS_HEAD + Decimal(freq);
    FieldsCons(Str(sentence), []);
    PackedFrame(|sentence|, [Str(sentence)]);
  }

  // ------------------------------------------------------- inbound frames

  /**
   * `data.size() - 5` computed in `size_t`, whose values are below 2^64:
   * below five it wraps around to a huge value.
   */
  function PayloadLength(size: nat): (n: nat)
    requires size < TWO_64
    ensures n == (size - HEADER_LENGTH) % TWO_64
  {
    if size >= HEADER_LENGTH then size - HEADER_LENGTH else TWO_64 + size - HEADER_LENGTH
  }

  /** The length test of an RREF response: `(data.size() - 5) % 8 == 0`. */
  predicate RrefLengthOk(size: nat)
    requires size < TWO_64
  {
    PayloadLength(size) % 8 == 0
  }

  /** The length test of a pose response: `(data.size() - 5) % 64 == 0` and `data.size() > 6`. */
  predicate RposLengthOk(size: nat)
    requires size < TWO_64
  {
    PayloadLength(size) % 64 == 0 && size > 6
  }

  /** An RREF response passes exactly when it is the header followed by whole 8-byte pairs. */
  lemma RrefLengthOkMeans(size: nat)
    requires size < TWO_64
    ensures RrefLengthOk(size) <==> size >= HEADER_LENGTH && (size - HEADER_LENGTH) % 8 == 0
  {
    if size < HEADER_LENGTH {
      assert PayloadLength(size) == TWO_64 + size - HEADER_LENGTH;
      assert (TWO_64 + size - HEADER_LENGTH) % 8 == size + 3;
    }
  }

  /** A pose response passes exactly when it carries at least one whole 64-byte record after the header. */
  lemma RposLengthOkMeans(size: nat)
    requires size < TWO_64
    ensures RposLengthOk(size) <==> size >= HEADER_LENGTH + 64 && (size - HEADER_LENGTH) % 64 == 0
  {
    if size < HEADER_LENGTH {
      assert PayloadLength(size) == TWO_64 + size - HEADER_LENGTH;
      assert (TWO_64 + size - HEADER_LENGTH) % 64 == size + 59;
    }
  }

  /** One `{slotIndex: int32, value: float}` pair of an RREF response. */
  datatype Pair = Pair(index: int, value: Float32)

  function AsInt(f: Field): int
  {
    if f.Int32? then f.i else 0
  }

  /** `unpack(data, at, index, value)`. */
  function PairAt(data: Bytes, at: nat): Pair
    requires at + 8 <= |data|
  {
    var fs := Unpack(data, at, [KInt32, KFloat]);
    Pair(AsInt(fs[0]), AsFloat(fs[1]))
  }

  /** The pairs of an RREF response, read at offsets 5, 13, 21, ... */
  function RrefPairs(data: Bytes): (pairs: seq<Pair>)
    requires |data| >= HEADER_LENGTH && (|data| - HEADER_LENGTH) % 8 == 0
    ensures |pairs| == (|data| - HEADER_LENGTH) / 8
  {
    seq((|data| - HEADER_LENGTH) / 8,
        j requires 0 <= j < (|data| - HEADER_LENGTH) / 8 => PairAt(data, HEADER_LENGTH + 8 * j))
  }

  function PairFields(p: Pair): seq<Field>
  {
    [Int32(p.index), Float(p.value)]
  }

  /** The eight bytes of one pair: its index as int32, then its value. */
  function PairBytes(p: Pair): (r: Bytes)
    ensures |r| == 8
  {
    Encode(Int32(p.index)) + Encode(Float(p.value))
  }

  /** Blocks of bytes laid end to end. */
  function Flatten(blocks: seq<Bytes>): Bytes
  {
    if blocks == [] then [] else blocks[0] + Flatten(blocks[1..])
  }

  /** Eight-byte blocks laid end to end: block `j` sits at offset `8 * j`. */
  lemma {:induction false} FlattenAt(blocks: seq<Bytes>, j: nat)
    requires forall i :: 0 <= i < |blocks| ==> |blocks[i]| == 8
    requires j < |blocks|
    ensures |Flatten(blocks)| == 8 * |blocks|
    ensures Flatten(blocks)[8 * j..8 * j + 8] == blocks[j]
    decreases |blocks|
  {
    var head, rest := blocks[0], Flatten(blocks[1..]);
    FlattenLength(blocks[1..]);
    if j > 0 {
      FlattenAt(blocks[1..], j - 1);
      SliceAfter(head, rest, 8 * (j - 1), 8 * j);
    } else {
      assert (head + rest)[..8] == head;
    }
  }

  lemma {:induction false} FlattenLength(blocks: seq<Bytes>)
    requires forall i :: 0 <= i < |blocks| ==> |blocks[i]| == 8
    ensures |Flatten(blocks)| == 8 * |blocks|
    decreases |blocks|
  {
    if blocks != [] {
      FlattenLength(blocks[1..]);
    }
  }

  function PairBlocks(pairs: seq<Pair>): (blocks: seq<Bytes>)
    ensures |blocks| == |pairs|
    ensures forall j :: 0 <= j < |pairs| ==> blocks[j] == PairBytes(pairs[j]) && |blocks[j]| == 8
  {
    seq(|pairs|, j requires 0 <= j < |pairs| => PairBytes(pairs[j]))
  }

  /** The pairs' bytes laid end to end. */
  function EncodePairs(pairs: seq<Pair>): (r: Bytes)
    ensures |r| == 8 * |pairs|
  {
    FlattenLength(PairBlocks(pairs));
    Flatten(PairBlocks(pairs))
  }

  /** The response the simulator sends for a set of slot values. */
  function RrefResponse(pairs: seq<Pair>): Bytes
  {
    RREF_HEAD + EncodePairs(pairs)
  }

  /** A slice of what follows a prefix. */
  lemma SliceAfter(head: Bytes, rest: Bytes, i: nat, j: nat)
    requires i <= j <= |rest|
    ensures (head + rest)[|head| + i..|head| + j] == rest[i..j]
  {
    assert forall k :: 0 <= k < j - i ==> (head + rest)[|head| + i..|head| + j][k] == rest[i..j][k];
  }

  /** A pair is read back from its own eight bytes. */
  lemma PairRoundTrip(data: Bytes, at: nat, p: Pair)
    requires -0x8000_0000 <= p.index < 0x8000_0000
    requires at + 8 <= |data| && data[at..at + 8] == PairBytes(p)
    ensures PairAt(data, at) == p
  {
    var fields := PairFields(p);
    FieldsCons(Float(p.value), []);
    FieldsCons(Int32(p.index), [Float(p.value)]);
    assert fields == [Int32(p.index)] + [Float(p.value)];
    assert Unpackable(fields[0]) && Unpackable(fields[1]);
    assert KindsOf(fields) == [KInt32, KFloat] by {
      assert fields[1..] == [Float(p.value)];
    }
    UnpackEncoded(data, at, fields);
  }

  lemma ResponsePairBytes(pairs: seq<Pair>, j: nat)
    requires j < |pairs|
    ensures HEADER_LENGTH + 8 * j + 8 <= |RrefResponse(pairs)|
    ensures RrefResponse(pairs)[HEADER_LENGTH + 8 * j..HEADER_LENGTH + 8 * j + 8] == PairBytes(pairs[j])
  {
    FlattenAt(PairBlocks(pairs), j);
    SliceAfter(RREF_HEAD, EncodePairs(pairs), 8 * j, 8 * j + 8);
  }

  /** Every pair the simulator sends with an int32 index is read back as sent, in order. */
  lemma RrefResponseRoundTrip(pairs: seq<Pair>)
    requires forall j :: 0 <= j < |pairs| ==> -0x8000_0000 <= pairs[j].index < 0x8000_0000
    ensures HasTag(RrefResponse(pairs), RREF_HEAD)
    ensures |RrefResponse(pairs)| >= HEADER_LENGTH && (|RrefResponse(pairs)| - HEADER_LENGTH) % 8 == 0
    ensures RrefPairs(RrefResponse(pairs)) == pairs
  {
    var data := RrefResponse(pairs);
    assert data[..4] == RREF_HEAD[..4];
    assert (|data| - HEADER_LENGTH) / 8 == |pairs|;
    forall j | 0 <= j < |pairs| ensures RrefPairs(data)[j] == pairs[j] {
      ResponsePairBytes(pairs, j);
      PairRoundTrip(data, HEADER_LENGTH + 8 * j, pairs[j]);
    }
  }

  /**
   * The value table after an RREF response's pairs are stored in order. A
   * pair whose index is not a slot of the table is skipped.
   */
  function WritePairs(values: seq<Float32>, pairs: seq<Pair>): (r: seq<Float32>)
    ensures |r| == |values|
    decreases |pairs|
  {
    if pairs == [] then values
    else StorePair(WritePairs(values, pairs[..|pairs| - 1]), pairs[|pairs| - 1])
  }

  /** One pair stored: its slot takes its value when the slot exists. */
  function StorePair(values: seq<Float32>, p: Pair): (r: seq<Float32>)
    ensures |r| == |values|
  {
    if 0 <= p.index < |values| then values[p.index := p.value] else values
  }

  /** Storing the pairs up to `j` is storing those before `j`, then pair `j`. */
  lemma WritePairsStep(values: seq<Float32>, pairs: seq<Pair>, j: nat)
    requires j < |pairs|
    ensures WritePairs(values, pairs[..j + 1]) == StorePair(WritePairs(values, pairs[..j]), pairs[j])
  {
    assert pairs[..j + 1][..j] == pairs[..j];
  }

  /** A slot holds the value of the last pair that addresses it: later pairs win. */
  lemma {:induction false} LaterPairsWin(values: seq<Float32>, pairs: seq<Pair>, j: nat)
    requires j < |pairs| && 0 <= pairs[j].index < |values|
    requires forall j' :: j < j' < |pairs| ==> pairs[j'].index != pairs[j].index
    ensures WritePairs(values, pairs)[pairs[j].index] == pairs[j].value
    decreases |pairs|
  {
    if j < |pairs| - 1 {
      LaterPairsWin(values, pairs[..|pairs| - 1], j);
    }
  }

  /** A slot that no pair addresses keeps its value. */
  lemma {:induction false} UnaddressedSlotKept(values: seq<Float32>, pairs: seq<Pair>, k: nat)
    requires k < |values|
    requires forall j :: 0 <= j < |pairs| ==> pairs[j].index != k
    ensures WritePairs(values, pairs)[k] == values[k]
    decreases |pairs|
  {
    if pairs != [] {
      UnaddressedSlotKept(values, pairs[..|pairs| - 1], k);
    }
  }

  /**
   * `values[index] = value` as XPlaneUDP.cpp:231 writes it: there is no bounds
   * check, so it is defined only when every index is a slot of the table.
   */
  function WritePairsAsWritten(values: seq<Float32>, pairs: seq<Pair>): (r: seq<Float32>)
    requires forall j :: 0 <= j < |pairs| ==> 0 <= pairs[j].index < |values|
    ensures |r| == |values|
    decreases |pairs|
  {
    if pairs == [] then values
    else WritePairsAsWritten(values, pairs[..|pairs| - 1])[pairs[|pairs| - 1].index := pairs[|pairs| - 1].value]
  }

  /**
   * The length test lets through a response whose index is past the end of a
   * one-slot table, so the unchecked write goes out of bounds.
   */
  lemma UncheckedIndexOutOfRange()
    ensures var data := RrefResponse([Pair(1, Float32(0))]);
            && HasTag(data, RREF_HEAD) && RrefLengthOk(|data|)
            && RrefPairs(data) == [Pair(1, Float32(0))]
            && !(0 <= RrefPairs(data)[0].index < |[Float32(0)]|)
  {
    var data := RrefResponse([Pair(1, Float32(0))]);
    RrefResponseRoundTrip([Pair(1, Float32(0))]);
    RrefLengthOkMeans(|data|);
  }

  /** The pose record of an RPOS response. */
  function RposResponse(p: PlaneInfo): Bytes
  {
    RPOS_HEAD + PlaneInfoImage(p)
  }

  /** A pose response passes the length test and its record is read back as sent. */
  lemma RposResponseRoundTrip(p: PlaneInfo)
    ensures HasTag(RposResponse(p), RPOS_HEAD) && !HasTag(RposResponse(p), RREF_HEAD)
    ensures |RposResponse(p)| == HEADER_LENGTH + SIZE_OF_PLANE_INFO
    ensures RposLengthOk(|RposResponse(p)|)
    ensures UnpackPlaneInfo(RposResponse(p), HEADER_LENGTH) == p
  {
    var body := PlaneInfoImage(p);
    HeadThenBody(RPOS_HEAD, body);
    HeadersAreTags();
    RposLengthOkMeans(HEADER_LENGTH + 64);
    PlaneInfoAt(RposResponse(p), HEADER_LENGTH, p);
  }

  /** A frame made of a tag and a body: the tag's letters, then the body at offset 5. */
  lemma HeadThenBody(head: Bytes, body: Bytes)
    requires |head| == HEADER_LENGTH
    ensures |head + body| == HEADER_LENGTH + |body|
    ensures (head + body)[..4] == head[..4]
    ensures (head + body)[HEADER_LENGTH..HEADER_LENGTH + |body|] == body
  {
  }

  // --------------------------------------------- requests as the source builds them

  /**
   * The request `addDataref` builds (XPlaneUDP.cpp:27-30): its slot is a
   * `size_t`, so `pack` writes it as 8 bytes and the name starts at offset 17.
   */
  function RrefRequestWideSlot(freq: int32, slot: nat, name: Bytes): (frame: Bytes)
    requires |name| <= RREF_NAME_CAPACITY - 4
    ensures |frame| == RREF_BUFFER
  {
    EncodeFour([Str(RREF_HEAD), Int32(freq), SizeT(slot), Str(name)]);
    PackInto(Zeros(RREF_BUFFER), 0, [Str(RREF_HEAD), Int32(freq), SizeT(slot), Str(name)])
  }

  lemma {:induction false} ToLEHighBytesZero(n: nat, width: nat, low: nat)
    requires low <= width && n < Pow256(low)
    ensures forall k :: low <= k < width ==> ToLE(n, width)[k] == 0
    decreases width
  {
    if width > 0 {
      if low > 0 {
        ToLEHighBytesZero(n / 256, width - 1, low - 1);
      } else {
        ToLEHighBytesZero(n / 256, width - 1, 0);
      }
    }
  }

  /** A slot below 2^31 written as a `size_t` has four zero upper bytes. */
  lemma SizeTUpperHalfZero(slot: nat)
    requires slot < 0x8000_0000
    ensures Encode(SizeT(slot))[4..8] == [0, 0, 0, 0]
  {
    Pow256Widths();
    assert slot % TWO_64 == slot;
    ToLEHighBytesZero(slot, 8, 4);
  }

  /**
   * In that request the bytes at offsets 13 to 16 are the zero upper half of
   * the slot, so the simulator, which reads the name from offset 13, reads an
   * empty name; the request the protocol calls for carries the name there.
   */
  lemma WideSlotHidesName(freq: int32, slot: nat, name: Bytes)
    requires 1 <= |name| <= RREF_NAME_CAPACITY - 4 && name[0] != 0 && slot < 0x8000_0000
    ensures RrefRequestWideSlot(freq, slot, name)[13..17] == [0, 0, 0, 0]
    ensures RrefRequestWideSlot(freq, slot, name)[13] != RrefRequest(freq, slot, name)[13]
  {
    var fields := [Str(RREF_HEAD), Int32(freq), SizeT(slot), Str(name)];
    EncodeFour(fields);
    FourFieldFrame(RREF_BUFFER, fields);
    var f := RrefRequestWideSlot(freq, slot, name);
    assert f[9..17] == Encode(SizeT(slot));
    SizeTUpperHalfZero(slot);
    SliceInSlice(f, 9, 17, 4, 4);
    RrefRequestLayout(freq, slot, name);
    var g := RrefRequest(freq, slot, name);
    assert g[13] == g[13..13 + |name|][0];
  }

  /** The bit pattern of the float 1.0. */
  const FLOAT_ONE: Float32 := Float32(0x3F80_0000)

  /**
   * The request `changeDatarefFreq` re-sends for a scalar (XPlaneUDP.cpp:99):
   * its frequency is the `float` parameter, so `pack` writes the float's bit
   * pattern where the protocol has an int32.
   */
  function RrefRequestFloatFreq(freq: Float32, slot: nat, name: Bytes): (frame: Bytes)
    requires |name| <= RREF_NAME_CAPACITY
    ensures |frame| == RREF_BUFFER
  {
    EncodeFour([Str(RREF_HEAD), Float(freq), Int32(slot), Str(name)]);
    PackInto(Zeros(RREF_BUFFER), 0, [Str(RREF_HEAD), Float(freq), Int32(slot), Str(name)])
  }

  /** Asking for frequency 1.0 that way, the simulator reads a frequency of 1065353216. */
  lemma FloatFrequencyMisread(slot: nat, name: Bytes)
    requires |name| <= RREF_NAME_CAPACITY && slot < 0x8000_0000
    ensures Decode(KInt32, RrefRequestFloatFreq(FLOAT_ONE, slot, name)[5..9]) == Int32(0x3F80_0000)
    ensures Decode(KInt32, RrefRequest(1, slot, name)[5..9]) == Int32(1)
  {
    var fields := [Str(RREF_HEAD), Float(FLOAT_ONE), Int32(slot), Str(name)];
    EncodeFour(fields);
    FourFieldFrame(RREF_BUFFER, fields);
    Pow256Widths();
    assert Encode(Int32(0x3F80_0000)) == Encode(Float(FLOAT_ONE));
    DecodeEncode(Int32(0x3F80_0000));
    RrefRequestLayout(1, slot, name);
  }
}
