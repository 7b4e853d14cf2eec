/**
 * The byte-level codec of the X-Plane UDP client: the native representation
 * that `memcpy` copies for each fundamental type (little-endian on the
 * platforms the protocol targets), and the variadic `pack`/`unpack`
 * templates of XPlaneUDP.hpp re-expressed over a list of typed fields.
 */
module Wire {

  newtype byte = x: int | 0 <= x < 0x100
  type Bytes = seq<byte>

  type uint32 = x: int | 0 <= x < 0x1_0000_0000
  type uint64 = x: int | 0 <= x < 0x1_0000_0000_0000_0000
  type int32 = x: int | -0x8000_0000 <= x < 0x8000_0000

  const TWO_32: nat := 0x1_0000_0000
  const TWO_64: nat := 0x1_0000_0000_0000_0000

  /** A `float` is carried as its 32-bit pattern: the client copies floats and never computes with them. */
  datatype Float32 = Float32(bits: uint32)

  /** A `double`, likewise carried as its 64-bit pattern. */
  datatype Float64 = Float64(bits: uint64)

  function Pow256(n: nat): (p: nat)
    ensures p >= 1
  {
    if n == 0 then 1 else 256 * Pow256(n - 1)
  }

  /** The `width` bytes, least significant first, of a number below 256^width. */
  function ToLE(n: nat, width: nat): (r: Bytes)
    ensures |r| == width
  {
    if width == 0 then [] else [(n % 256) as byte] + ToLE(n / 256, width - 1)
  }

  /** The number whose little-endian representation is `b`. */
  function FromLE(b: Bytes): (n: nat)
    ensures n < Pow256(|b|)
  {
    if |b| == 0 then 0 else b[0] as nat + 256 * FromLE(b[1..])
  }

  lemma {:induction false} FromToLE(n: nat, width: nat)
    requires n < Pow256(width)
    ensures FromLE(ToLE(n, width)) == n
  {
    if width > 0 {
      var r := ToLE(n, width);
      assert r[1..] == ToLE(n / 256, width - 1);
      FromToLE(n / 256, width - 1);
    }
  }

  lemma {:induction false} ToFromLE(b: Bytes)
    ensures ToLE(FromLE(b), |b|) == b
  {
    if |b| > 0 {
      var n := FromLE(b);
      assert n % 256 == b[0] as nat && n / 256 == FromLE(b[1..]);
      ToFromLE(b[1..]);
    }
  }

  lemma Pow256Widths()
    ensures Pow256(4) == TWO_32 && Pow256(8) == TWO_64
  {
  }

  /** The value an `int32_t` holds whose two's-complement pattern is `u`. */
  /** The `int32_t` whose two's-complement pattern is `u`: negative exactly when the sign bit is set. */
  function Signed32(u: uint32): (v: int32)
    ensures v < 0 <==> u >= 0x8000_0000
  {
    if u < 0x8000_0000 then u else u - TWO_32
  }

  /** One argument of `pack`: a fundamental type or a `std::string`. */
  datatype Field =
    | Int32(i: int)       // int32_t / int: 4 bytes, two's complement
    | SizeT(n: nat)       // size_t: 8 bytes
    | Float(f: Float32)   // float: 4 bytes
    | Double(d: Float64)  // double: 8 bytes
    | Char(c: byte)       // char: 1 byte
    | Str(s: Bytes)       // std::string: its size() bytes, no terminator

  /** What `pack` adds to the offset for one field: `size()` for a string, `sizeof(T)` otherwise. */
  function Width(f: Field): nat
  {
    match f
    case Int32(_) => 4
    case SizeT(_) => 8
    case Float(_) => 4
    case Double(_) => 8
    case Char(_) => 1
    case Str(s) => |s|
  }

  /** The bytes `memcpy` copies for one field; integers wrap to their C++ width. */
  function Encode(f: Field): (r: Bytes)
    ensures |r| == Width(f)
  {
    match f
    case Int32(i) => ToLE(i % TWO_32, 4)
    case SizeT(n) => ToLE(n % TWO_64, 8)
    case Float(x) => ToLE(x.bits, 4)
    case Double(x) => ToLE(x.bits, 8)
    case Char(c) => [c]
    case Str(s) => s
  }

  function TotalWidth(fields: seq<Field>): nat
  {
    if fields == [] then 0 else Width(fields[0]) + TotalWidth(fields[1..])
  }

  /** A field list is its first field's bytes followed by the rest's. */
  lemma FieldsCons(f: Field, rest: seq<Field>)
    ensures TotalWidth([f] + rest) == Width(f) + TotalWidth(rest)
    ensures EncodeAll([f] + rest) == Encode(f) + EncodeAll(rest)
  {
    assert ([f] + rest)[0] == f && ([f] + rest)[1..] == rest;
  }

  /** The fields' bytes laid end to end, first field first. */
  function EncodeAll(fields: seq<Field>): (r: Bytes)
    ensures |r| == TotalWidth(fields)
  {
    if fields == [] then [] else Encode(fields[0]) + EncodeAll(fields[1..])
  }

  /** `buf` with `data` copied over it at `offset`. */
  function Splice(buf: Bytes, offset: nat, data: Bytes): (r: Bytes)
    requires offset + |data| <= |buf|
    ensures |r| == |buf|
  {
    buf[..offset] + data + buf[offset + |data|..]
  }

  /** `data` lands at `offset`; every other byte keeps its value. */
  lemma SpliceAt(buf: Bytes, offset: nat, data: Bytes)
    requires offset + |data| <= |buf|
    ensures forall k :: 0 <= k < |buf| ==>
              Splice(buf, offset, data)[k] == if offset <= k < offset + |data| then data[k - offset] else buf[k]
    ensures Splice(buf, offset, data)[..offset] == buf[..offset]
    ensures Splice(buf, offset, data)[offset..offset + |data|] == data
    ensures Splice(buf, offset, data)[offset + |data|..] == buf[offset + |data|..]
  {
  }

  lemma SpliceTwice(buf: Bytes, offset: nat, a: Bytes, b: Bytes)
    requires offset + |a| + |b| <= |buf|
    ensures Splice(Splice(buf, offset, a), offset + |a|, b) == Splice(buf, offset, a + b)
  {
    var mid := Splice(buf, offset, a);
    var rest := buf[offset + |a| + |b|..];
    assert mid[..offset + |a|] == buf[..offset] + a;
    assert mid[offset + |a| + |b|..] == rest;
    assert Splice(mid, offset + |a|, b) == (buf[..offset] + a) + b + rest;
    assert Splice(buf, offset, a + b) == buf[..offset] + (a + b) + rest;
  }

  /** The buffer after `pack(buf, offset, fields...)`: field by field, as the template recursion does. */
  function PackInto(buf: Bytes, offset: nat, fields: seq<Field>): (r: Bytes)
    requires offset + TotalWidth(fields) <= |buf|
    ensures |r| == |buf|
    decreases |fields|
  {
    if fields == [] then buf
    else PackInto(Splice(buf, offset, Encode(fields[0])), offset + Width(fields[0]), fields[1..])
  }

  /**
   * `pack` writes its fields left to right at consecutive offsets starting at
   * `offset`, and leaves every byte outside that range as it was.
   */
  lemma {:induction false} PackWritesInOrder(buf: Bytes, offset: nat, fields: seq<Field>)
    requires offset + TotalWidth(fields) <= |buf|
    ensures PackInto(buf, offset, fields) == Splice(buf, offset, EncodeAll(fields))
    decreases |fields|
  {
    if fields != [] {
      var head := Encode(fields[0]);
      var tail := EncodeAll(fields[1..]);
      var mid := Splice(buf, offset, head);
      assert PackInto(buf, offset, fields) == PackInto(mid, offset + |head|, fields[1..]);
      PackWritesInOrder(mid, offset + |head|, fields[1..]);
      SpliceTwice(buf, offset, head, tail);
      assert EncodeAll(fields) == head + tail;
    }
  }

  /** `memcpy(dst.data() + offset, src, |src|)`. */
  method Memcpy(dst: array<byte>, offset: nat, src: Bytes)
    requires offset + |src| <= dst.Length
    modifies dst
    ensures dst[..] == Splice(old(dst[..]), offset, src)
  {
    for j := 0 to |src|
      invariant forall k :: 0 <= k < dst.Length ==>
                  dst[k] == if offset <= k < offset + j then src[k - offset] else old(dst[k])
    {
      dst[offset + j] := src[j];
    }
    SpliceAt(old(dst[..]), offset, src);
  }

  /**
   * `pack(container, offset, first, rest...)`: copies `first` at `offset`,
   * then packs the rest after it, and returns the offset just past the last
   * field. Like the template, it needs at least one field, and like `memcpy`
   * it does no bounds check, so the fields must fit.
   */
  method Pack(container: array<byte>, offset: nat, fields: seq<Field>) returns (end: nat)
    requires |fields| >= 1
    requires offset + TotalWidth(fields) <= container.Length
    modifies container
    ensures end == offset + TotalWidth(fields)
    ensures container[..] == PackInto(old(container[..]), offset, fields)
    decreases |fields|
  {
    var first := Encode(fields[0]);
    Memcpy(container, offset, first);
    if |fields| > 1 {
      end := Pack(container, offset + |first|, fields[1..]);
    } else {
      end := offset + |first|;
    }
  }

  /** The fundamental types `unpack` reads with `memcpy`. */
  datatype Kind = KInt32 | KSizeT | KFloat | KDouble | KChar

  function KindWidth(k: Kind): nat
  {
    match k
    case KInt32 => 4
    case KSizeT => 8
    case KFloat => 4
    case KDouble => 8
    case KChar => 1
  }

  function TotalKindWidth(kinds: seq<Kind>): nat
  {
    if kinds == [] then 0 else KindWidth(kinds[0]) + TotalKindWidth(kinds[1..])
  }

  predicate HasKind(f: Field, k: Kind)
  {
    match k
    case KInt32 => f.Int32?
    case KSizeT => f.SizeT?
    case KFloat => f.Float?
    case KDouble => f.Double?
    case KChar => f.Char?
  }

  /** The value of a fixed-width type read back from `sizeof(T)` bytes. */
  function Decode(k: Kind, b: Bytes): (f: Field)
    requires |b| == KindWidth(k)
    ensures HasKind(f, k)
  {
    Pow256Widths();
    match k
    case KInt32 => Int32(Signed32(FromLE(b)))
    case KSizeT => SizeT(FromLE(b))
    case KFloat => Float(Float32(FromLE(b)))
    case KDouble => Double(Float64(FromLE(b)))
    case KChar => Char(b[0])
  }

  function AsDouble(f: Field): Float64
  {
    if f.Double? then f.d else Float64(0)
  }

  function AsFloat(f: Field): Float32
  {
    if f.Float? then f.f else Float32(0)
  }

  /** The `double` member at byte `at` of a record. */
  function DoubleAt(buf: Bytes, at: nat): Float64
    requires at + 8 <= |buf|
  {
    AsDouble(Decode(KDouble, buf[at..at + 8]))
  }

  /** The `float` member at byte `at` of a record. */
  function FloatAt(buf: Bytes, at: nat): Float32
    requires at + 4 <= |buf|
  {
    AsFloat(Decode(KFloat, buf[at..at + 4]))
  }

  /**
   * `unpack(container, offset, first, rest...)`: reads `sizeof(First)` bytes at
   * `offset` into `first` and continues at `offset + sizeof(First)`.
   */
  function Unpack(buf: Bytes, offset: nat, kinds: seq<Kind>): (fields: seq<Field>)
    requires offset + TotalKindWidth(kinds) <= |buf|
    ensures |fields| == |kinds|
    ensures forall j :: 0 <= j < |kinds| ==> HasKind(fields[j], kinds[j])
    decreases |kinds|
  {
    if kinds == [] then []
    else
      var w := KindWidth(kinds[0]);
      [Decode(kinds[0], buf[offset..offset + w])] + Unpack(buf, offset + w, kinds[1..])
  }

  /** A field `unpack` can read back: fixed width, and an integer within its C++ type's range. */
  predicate Unpackable(f: Field)
  {
    && !f.Str?
    && (f.Int32? ==> -0x8000_0000 <= f.i < 0x8000_0000)
    && (f.SizeT? ==> f.n < TWO_64)
  }

  function KindOf(f: Field): (k: Kind)
    requires !f.Str?
    ensures KindWidth(k) == Width(f) && HasKind(f, k)
  {
    match f
    case Int32(_) => KInt32
    case SizeT(_) => KSizeT
    case Float(_) => KFloat
    case Double(_) => KDouble
    case Char(_) => KChar
  }

  function KindsOf(fields: seq<Field>): (kinds: seq<Kind>)
    requires forall j :: 0 <= j < |fields| ==> Unpackable(fields[j])
    ensures |kinds| == |fields| && TotalKindWidth(kinds) == TotalWidth(fields)
  {
    if fields == [] then []
    else
      assert Unpackable(fields[0]);
      assert forall j :: 0 <= j < |fields| - 1 ==> fields[1..][j] == fields[j + 1];
      [KindOf(fields[0])] + KindsOf(fields[1..])
  }

  /** `KindsOf` maps each field to its own kind. */
  lemma {:induction false} KindsOfPointwise(fields: seq<Field>)
    requires forall j :: 0 <= j < |fields| ==> Unpackable(fields[j])
    ensures forall j :: 0 <= j < |fields| ==> KindsOf(fields)[j] == KindOf(fields[j])
    decreases |fields|
  {
    if fields != [] {
      UnpackableParts(fields);
      KindsOfPointwise(fields[1..]);
      assert KindsOf(fields) == [KindOf(fields[0])] + KindsOf(fields[1..]);
      forall j | 1 <= j < |fields| ensures KindsOf(fields)[j] == KindOf(fields[j]) {
        assert fields[1..][j - 1] == fields[j];
      }
    }
  }

  /** Reading back a field's bytes gives the field. */
  lemma DecodeEncode(f: Field)
    requires Unpackable(f)
    ensures Decode(KindOf(f), Encode(f)) == f
  {
    Pow256Widths();
    match f
    case Int32(i) =>
      var u := if i >= 0 then i else i + TWO_32;
      assert i % TWO_32 == u;
      FromToLE(u, 4);
    case SizeT(n) =>
      assert n % TWO_64 == n;
      FromToLE(n, 8);
    case Float(x) => FromToLE(x.bits, 4);
    case Double(x) => FromToLE(x.bits, 8);
    case Char(_) =>
  }

  /** Writing back a value read from `sizeof(T)` bytes gives those bytes. */
  lemma EncodeDecode(k: Kind, b: Bytes)
    requires |b| == KindWidth(k)
    ensures Encode(Decode(k, b)) == b
  {
    Pow256Widths();
    ToFromLE(b);
    match k
    case KInt32 => EncodeDecodeInt32(b);
    case KSizeT => assert FromLE(b) % TWO_64 == FromLE(b);
    case KFloat =>
    case KDouble =>
    case KChar => assert b == [b[0]];
  }

  lemma EncodeDecodeInt32(b: Bytes)
    requires |b| == 4
    ensures ToLE(Signed32(FromLE(b)) % TWO_32, 4) == b
  {
    Pow256Widths();
    ToFromLE(b);
    Signed32Wraps(FromLE(b));
  }

  /** An int32 reduced modulo 2^32 gives back its two's-complement pattern. */
  lemma Signed32Wraps(u: uint32)
    ensures Signed32(u) % TWO_32 == u
  {
    if u >= 0x8000_0000 {
      assert Signed32(u) + TWO_32 == u;
    }
  }

  /** Unpacking what `pack` wrote, at the offset where it wrote it, yields the packed values. */
  lemma {:induction false} UnpackPacked(buf: Bytes, offset: nat, fields: seq<Field>)
    requires forall j :: 0 <= j < |fields| ==> Unpackable(fields[j])
    requires offset + TotalWidth(fields) <= |buf|
    ensures Unpack(PackInto(buf, offset, fields), offset, KindsOf(fields)) == fields
  {
    PackWritesInOrder(buf, offset, fields);
    SpliceAt(buf, offset, EncodeAll(fields));
    UnpackEncoded(PackInto(buf, offset, fields), offset, fields);
  }

  lemma {:induction false} UnpackEncoded(buf: Bytes, offset: nat, fields: seq<Field>)
    requires forall j :: 0 <= j < |fields| ==> Unpackable(fields[j])
    requires offset + TotalWidth(fields) <= |buf|
    requires buf[offset..offset + TotalWidth(fields)] == EncodeAll(fields)
    ensures Unpack(buf, offset, KindsOf(fields)) == fields
    decreases |fields|
  {
    if fields != [] {
      var f, rest := fields[0], fields[1..];
      assert fields == [f] + rest;
      UnpackableParts(fields);
      var w := Width(f);
      EncodedParts(buf, offset, f, rest);
      UnpackEncoded(buf, offset + w, rest);
      UnpackStep(buf, offset, f, rest);
    }
  }

  lemma UnpackStep(buf: Bytes, offset: nat, f: Field, rest: seq<Field>)
    requires Unpackable(f) && forall j :: 0 <= j < |rest| ==> Unpackable(rest[j])
    requires offset + Width(f) + TotalWidth(rest) <= |buf|
    requires buf[offset..offset + Width(f)] == Encode(f)
    requires Unpack(buf, offset + Width(f), KindsOf(rest)) == rest
    ensures forall j :: 0 <= j < |[f] + rest| ==> Unpackable(([f] + rest)[j])
    ensures offset + TotalKindWidth(KindsOf([f] + rest)) <= |buf|
    ensures Unpack(buf, offset, KindsOf([f] + rest)) == [f] + rest
  {
    var fields := [f] + rest;
    assert fields[0] == f && fields[1..] == rest;
    assert KindsOf(fields) == [KindOf(f)] + KindsOf(rest);
    DecodeAt(buf, offset, f);
    UnpackCons(buf, offset, KindOf(f), KindsOf(rest));
  }

  lemma UnpackableParts(fields: seq<Field>)
    requires |fields| > 0 && forall j :: 0 <= j < |fields| ==> Unpackable(fields[j])
    ensures Unpackable(fields[0]) && forall j :: 0 <= j < |fields| - 1 ==> Unpackable(fields[1..][j])
  {
    assert Unpackable(fields[0]);
    forall j | 0 <= j < |fields| - 1 ensures Unpackable(fields[1..][j]) {
      assert fields[1..][j] == fields[j + 1];
    }
  }

  lemma EncodedParts(buf: Bytes, offset: nat, f: Field, rest: seq<Field>)
    requires offset + TotalWidth([f] + rest) <= |buf|
    requires buf[offset..offset + TotalWidth([f] + rest)] == EncodeAll([f] + rest)
    ensures offset + Width(f) + TotalWidth(rest) <= |buf|
    ensures buf[offset..offset + Width(f)] == Encode(f)
    ensures buf[offset + Width(f)..offset + Width(f) + TotalWidth(rest)] == EncodeAll(rest)
  {
    var fields := [f] + rest;
    assert fields[0] == f && fields[1..] == rest;
    var encoded := buf[offset..offset + TotalWidth(fields)];
    assert encoded == Encode(f) + EncodeAll(rest);
    SliceOfSlice(buf, offset, offset + TotalWidth(fields), Width(f));
  }

  /** The two parts of a slice cut at `mid` are slices of the whole. */
  lemma SliceOfSlice(s: Bytes, lo: nat, hi: nat, mid: nat)
    requires lo + mid <= hi <= |s|
    ensures s[lo..hi][..mid] == s[lo..lo + mid]
    ensures s[lo..hi][mid..] == s[lo + mid..hi]
  {
  }

  /** Bytes `[a, a + w)` of a copy of `s[lo..hi]` are bytes `[lo + a, lo + a + w)` of `s`. */
  lemma SliceChain(s: Bytes, lo: nat, hi: nat, e: Bytes, a: nat, w: nat, x: Bytes)
    requires lo <= hi <= |s| && s[lo..hi] == e && a + w <= |e| && e[a..a + w] == x
    ensures lo + a + w <= |s| && s[lo + a..lo + a + w] == x
  {
    SliceInSlice(s, lo, hi, a, w);
  }

  lemma SliceInSlice(s: Bytes, lo: nat, hi: nat, a: nat, w: nat)
    requires lo <= hi <= |s| && a + w <= hi - lo
    ensures s[lo..hi][a..a + w] == s[lo + a..lo + a + w]
  {
    var u, v := s[lo..hi][a..a + w], s[lo + a..lo + a + w];
    forall k | 0 <= k < w
      ensures u[k] == v[k]
    {
    }
  }

  lemma DecodeAt(buf: Bytes, offset: nat, f: Field)
    requires Unpackable(f)
    requires offset + Width(f) <= |buf| && buf[offset..offset + Width(f)] == Encode(f)
    ensures Decode(KindOf(f), buf[offset..offset + Width(f)]) == f
  {
    DecodeEncode(f);
  }

  /** The memory image of a C array of `double`s: byte `k` is byte `k % 8` of element `k / 8`. */
  function DoublesImage(xs: seq<Float64>): (b: Bytes)
    ensures |b| == 8 * |xs|
  {
    seq(8 * |xs|, k requires 0 <= k < 8 * |xs| => Encode(Double(xs[k / 8]))[k % 8])
  }

  /** The memory image of a C array of `float`s: byte `k` is byte `k % 4` of element `k / 4`. */
  function FloatsImage(xs: seq<Float32>): (b: Bytes)
    ensures |b| == 4 * |xs|
  {
    seq(4 * |xs|, k requires 0 <= k < 4 * |xs| => Encode(Float(xs[k / 4]))[k % 4])
  }

  /** Element `i` of a `double` array lies at byte `8 * i` of its image. */
  lemma DoubleInImage(xs: seq<Float64>, i: nat)
    requires i < |xs|
    ensures DoublesImage(xs)[8 * i..8 * i + 8] == Encode(Double(xs[i]))
  {
    var u, e := DoublesImage(xs)[8 * i..8 * i + 8], Encode(Double(xs[i]));
    forall t | 0 <= t < 8
      ensures u[t] == e[t]
    {
      assert (8 * i + t) / 8 == i && (8 * i + t) % 8 == t;
    }
  }

  /** Element `i` of a `float` array lies at byte `4 * i` of its image. */
  lemma FloatInImage(xs: seq<Float32>, i: nat)
    requires i < |xs|
    ensures FloatsImage(xs)[4 * i..4 * i + 4] == Encode(Float(xs[i]))
  {
    var u, e := FloatsImage(xs)[4 * i..4 * i + 4], Encode(Float(xs[i]));
    forall t | 0 <= t < 4
      ensures u[t] == e[t]
    {
      assert (4 * i + t) / 4 == i && (4 * i + t) % 4 == t;
    }
  }

  /** The eight bytes of a `double` read back as that `double`. */
  lemma DoubleAtBytes(buf: Bytes, at: nat, x: Float64)
    requires at + 8 <= |buf| && buf[at..at + 8] == Encode(Double(x))
    ensures DoubleAt(buf, at) == x
  {
    DecodeEncode(Double(x));
  }

  /** The four bytes of a `float` read back as that `float`. */
  lemma FloatAtBytes(buf: Bytes, at: nat, x: Float32)
    requires at + 4 <= |buf| && buf[at..at + 4] == Encode(Float(x))
    ensures FloatAt(buf, at) == x
  {
    DecodeEncode(Float(x));
  }

  /** A `double` at byte `a` of bytes copied to `lo` is read at `lo + a`. */
  lemma DoubleInCopy(buf: Bytes, lo: nat, img: Bytes, a: nat, x: Float64)
    requires lo + |img| <= |buf| && buf[lo..lo + |img|] == img
    requires a + 8 <= |img| && img[a..a + 8] == Encode(Double(x))
    ensures lo + a + 8 <= |buf| && DoubleAt(buf, lo + a) == x
  {
    SliceChain(buf, lo, lo + |img|, img, a, 8, Encode(Double(x)));
    DoubleAtBytes(buf, lo + a, x);
  }

  /** A `float` at byte `a` of bytes copied to `lo` is read at `lo + a`. */
  lemma FloatInCopy(buf: Bytes, lo: nat, img: Bytes, a: nat, x: Float32)
    requires lo + |img| <= |buf| && buf[lo..lo + |img|] == img
    requires a + 4 <= |img| && img[a..a + 4] == Encode(Float(x))
    ensures lo + a + 4 <= |buf| && FloatAt(buf, lo + a) == x
  {
    SliceChain(buf, lo, lo + |img|, img, a, 4, Encode(Float(x)));
    FloatAtBytes(buf, lo + a, x);
  }

  /** A `double` array copied to `offset` reads back element by element. */
  lemma DoubleFromImage(buf: Bytes, offset: nat, xs: seq<Float64>, i: nat)
    requires offset + 8 * |xs| <= |buf| && buf[offset..offset + 8 * |xs|] == DoublesImage(xs)
    requires i < |xs|
    ensures offset + 8 * i + 8 <= |buf| && DoubleAt(buf, offset + 8 * i) == xs[i]
  {
    DoubleInImage(xs, i);
    DoubleInCopy(buf, offset, DoublesImage(xs), 8 * i, xs[i]);
  }

  /** A `float` array copied to `offset` reads back element by element. */
  lemma FloatFromImage(buf: Bytes, offset: nat, xs: seq<Float32>, i: nat)
    requires offset + 4 * |xs| <= |buf| && buf[offset..offset + 4 * |xs|] == FloatsImage(xs)
    requires i < |xs|
    ensures offset + 4 * i + 4 <= |buf| && FloatAt(buf, offset + 4 * i) == xs[i]
  {
    FloatInImage(xs, i);
    FloatInCopy(buf, offset, FloatsImage(xs), 4 * i, xs[i]);
  }

  lemma UnpackCons(buf: Bytes, offset: nat, k: Kind, kinds: seq<Kind>)
    requires offset + KindWidth(k) + TotalKindWidth(kinds) <= |buf|
    ensures Unpack(buf, offset, [k] + kinds)
            == [Decode(k, buf[offset..offset + KindWidth(k)])] + Unpack(buf, offset + KindWidth(k), kinds)
  {
    assert ([k] + kinds)[1..] == kinds;
  }
}
