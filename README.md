# XPlaneUDP client, modelled in Dafny

XPlaneUDP is a C++ client for the X-Plane flight simulator's UDP protocol.
An application subscribes to datarefs, which are named simulator variables,
either one at a time or as arrays. The client:

- gives each subscription a range of slots in a value table;
- sends the simulator a "get dataref" (RREF) request per slot;
- writes the `(slot, value)` pairs of every RREF response into the table;
- keeps the latest aircraft pose from RPOS responses;
- writes datarefs with "set dataref" (DREF) frames.

This project models that core and proves properties of the model. It has
five modules:

- `Wire` (wire.dfy): the byte codec. It covers the native little-endian
  representation `memcpy` copies, and the variadic `pack`/`unpack`
  templates over lists of typed fields. `pack` has two forms: a pure
  specification `PackInto`, and a method `Pack` that writes into an
  `array<byte>` the way the template writes into its `std::vector<char>`.
- `Format` (format.dfy): `std::format` of integers, and the element names
  `name[i]` of array datarefs.
- `Slots` (slots.dfy): the first-fit allocator over the `space` bitmap,
  as pure functions.
- `Protocol` (protocol.dfy): the frames.
  - Outbound: the 5-byte tags and the RREF, DREF and RPOS request frames.
  - Inbound: the 64-byte `PlaneInfo` record and the length checks.
  - The RREF response: parsed into pairs and written into the table.
- `Client` (client.dfy): the `XPlaneUdp` object as a class.
  - Its fields are `dataRefs`, `values`, `space`, `exist` and `info`.
  - A ghost `outbox` records every datagram `sendData` is handed, in order.
  - Methods change those fields as the C++ member functions do.
  - The invariant `Valid()`, the predicate `Consistent` on the fields,
    holds between calls. It says:
    - the table is as long as the bitmap;
    - every receiving subscription holds set bits;
    - every set bit belongs to a receiving subscription;
    - two receiving subscriptions never share a slot;
    - `exist` maps each registered name to its own handle.

Floats are opaque bit patterns and are only copied. Sockets and coroutines
are replaced by the outbox and by the received datagram passed as a
parameter. Seven places where the code does not do what it evidently intends
are listed under "## Findings". The model follows the intended behaviour, and
for each place a separate member keeps the code as written, with a lemma
exhibiting the difference.

## Model

| member | source | states |
|---|---|---|
| `Wire.ToLE` | XPlaneUDP.hpp:132 | the native representation of an unsigned value has exactly the requested width |
| `Wire.FromLE` | XPlaneUDP.hpp:110 | the value read from `n` bytes is below 256^n |
| `Wire.FromToLE` | XPlaneUDP.hpp:132 | reading back the bytes written for a value that fits gives the value |
| `Wire.ToFromLE` | XPlaneUDP.hpp:110 | writing back the value read from some bytes gives the same bytes |
| `Wire.Encode` | XPlaneUDP.hpp:125-137 | a field occupies `size()` bytes for a string and `sizeof(T)` for a fundamental type |
| `Wire.EncodeAll` | XPlaneUDP.hpp:124-137 | the fields' bytes laid end to end are as long as the sum of their widths |
| `Wire.FieldsCons` | XPlaneUDP.hpp:127-134 | a field list's width and bytes are those of its head followed by those of its tail |
| `Wire.Splice` | XPlaneUDP.hpp:126 | a `memcpy` into a buffer keeps its size |
| `Wire.SpliceAt` | XPlaneUDP.hpp:132 | a `memcpy` changes exactly the bytes `[offset, offset + n)` to the source bytes; bytes before and after are unchanged |
| `Wire.SpliceTwice` | XPlaneUDP.hpp:126-128 | copying `a` and then `b` right after it equals copying `a + b` |
| `Wire.PackInto` | XPlaneUDP.hpp:122-138 | `pack` keeps the container's size |
| `Wire.PackWritesInOrder` | XPlaneUDP.hpp:124-137 | `pack` writes the fields left to right at consecutive offsets from `offset`, and changes no byte outside `[offset, offset + total width)` |
| `Wire.Memcpy` | XPlaneUDP.hpp:132 | the array after the copy is the old contents with the source bytes spliced in at `offset` |
| `Wire.Pack` | XPlaneUDP.hpp:122-138 | returns `offset` plus the sum of the field widths, and leaves the array equal to the pure specification `PackInto` of its old contents |
| `Wire.Decode` | XPlaneUDP.hpp:110 | reading `sizeof(T)` bytes yields a value of type `T` |
| `Wire.Signed32` | XPlaneUDP.hpp:110 | defines the `int32_t` a 4-byte pattern is read as: negative exactly when the sign bit is set |
| `Wire.Unpack` | XPlaneUDP.hpp:108-113 | `unpack` yields one value per requested type, each of that type |
| `Wire.KindOf` | XPlaneUDP.hpp:110 | a fixed-width field's type has that field's width |
| `Wire.KindsOf` | XPlaneUDP.hpp:109-112 | the types of a field list have the same total width as the fields |
| `Wire.KindsOfPointwise` | XPlaneUDP.hpp:109-112 | the type list is the per-field type at every position |
| `Wire.DecodeEncode` | XPlaneUDP.hpp:110 | decoding a fixed-width field's bytes at its own type gives back the field |
| `Wire.EncodeDecode` | XPlaneUDP.hpp:132 | encoding the value decoded from bytes gives back those bytes |
| `Wire.EncodeDecodeInt32` | XPlaneUDP.hpp:110 | an `int32_t` read back from 4 bytes re-encodes to the same bytes (two's-complement round trip) |
| `Wire.Signed32Wraps` | XPlaneUDP.hpp:110 | the signed reading of a 32-bit pattern is that pattern modulo 2^32 |
| `Wire.UnpackPacked` | XPlaneUDP.hpp:108-138 | unpacking fixed-width fields at the offset where `pack` wrote them gives the same values |
| `Wire.UnpackEncoded` | XPlaneUDP.hpp:108-113 | any buffer carrying the fields' bytes at `offset` unpacks to those fields |
| `Wire.UnpackStep` | XPlaneUDP.hpp:110-112 | unpacking extends by one field when its bytes precede an already unpacked tail |
| `Wire.UnpackCons` | XPlaneUDP.hpp:110-112 | `unpack` decodes the first type at `offset` and continues at `offset + sizeof(First)` |
| `Wire.DecodeAt` | XPlaneUDP.hpp:110 | a field's bytes found at `offset` decode to that field |
| `Wire.DoubleFromImage` | XPlaneUDP.hpp:48 | the `i`-th double of a run of doubles copied into a buffer is read back at `offset + 8i` |
| `Wire.FloatFromImage` | XPlaneUDP.hpp:49-50 | the `i`-th float of a run of floats copied into a buffer is read back at `offset + 4i` |
| `Format.Ascii` | XPlaneUDP.hpp:26-29 | defines the bytes of ASCII text: its characters' codes, one per character |
| `Format.Digits` | XPlaneUDP.cpp:22 | `std::format("{}", n)` is a nonempty run of decimal digits without a leading zero |
| `Format.DigitsRoundTrip` | XPlaneUDP.cpp:22 | reading the decimal digits back gives the number |
| `Format.DigitsLengthMonotone` | XPlaneUDP.cpp:50 | a larger number never has fewer digits |
| `Format.Decimal` | XPlaneUDP.cpp:22 | defines `std::format("{}", i)`: the digits of the magnitude, starting with a minus sign exactly when `i` is negative |
| `Format.DecimalInjective` | XPlaneUDP.cpp:22 | different integers render to different text, negative ones included |
| `Format.ElementName` | XPlaneUDP.cpp:50 | defines `std::format("{}[{}]", dataref, i)`: the base name, `[`, the index in decimal, `]` |
| `Format.SubscriptionName` | XPlaneUDP.cpp:22 | defines the name `addDataref` registers: it always starts with `dataref`, and is `dataref` itself exactly when `index == -1` (otherwise `dataref[index]`) |
| `Format.ElementNamesDistinct` | XPlaneUDP.cpp:50 | two different elements of one array dataref get different names `name[i]` |
| `Format.ElementNameLengthMonotone` | XPlaneUDP.cpp:49-50 | a later element's name is never shorter, so if the last element's name fits a buffer, every earlier one does |
| `Slots.Probe` | XPlaneUDP.cpp:167-171 | the scan looks for a run of at least one and at least `length` free bits |
| `Slots.FirstFitFrom` | XPlaneUDP.cpp:166-179 | the scan's result is a position inside the bitmap with room for the run after it, or the bitmap's size |
| `Slots.FirstFit` | XPlaneUDP.cpp:164-179 | where `findSpace` places a request lies in the bitmap with room for the run, or is the bitmap's size |
| `Slots.FirstFitFromFound` | XPlaneUDP.cpp:166-179 | the scan from `s` stops at a free run and skips no earlier free run |
| `Slots.FirstFitIsFirst` | XPlaneUDP.cpp:166-179 | first fit: a run found inside the bitmap is free, no free run of the requested size starts before it, and the result is the bitmap's size exactly when no free run exists anywhere |
| `Slots.FirstFitSkip` | XPlaneUDP.cpp:166-178 | passing starts where no run fits does not change where the search ends |
| `Slots.FirstFitAtRun` | XPlaneUDP.cpp:171-174 | the search stops at the first start of a free run |
| `Slots.FirstFitPastEnd` | XPlaneUDP.cpp:166-180 | no run is found once fewer bits remain than the run needs |
| `Slots.Mark` | XPlaneUDP.cpp:87 | defines `dynamic_bitset::set(pos, len, value)`: exactly the bits `[pos, pos + len)` become `value` |
| `Slots.Ones` | XPlaneUDP.cpp:181-182 | defines the bits `push_back(true)` appends: all set |
| `Slots.AfterAlloc` | XPlaneUDP.cpp:172-184 | allocation never shrinks the bitmap |
| `Slots.AllocMarksRun` | XPlaneUDP.cpp:164-184 | the returned range was free before and is set after; the bitmap grows by exactly `length` bits only when no run was found; bits outside the range keep their value, so used bits stay used |
| `Slots.ZeroFloats` | XPlaneUDP.cpp:189 | defines what `values.emplace_back()` appends: zero floats, as many as requested |
| `Slots.MarkAsWrittenOvershoots` | XPlaneUDP.cpp:172 | requesting one slot of `[used, free, free]` places it at slot 1; the intended update leaves slot 2 free, while the update as written also sets it |
| `Slots.MarkAsWritten` | XPlaneUDP.cpp:172 | defines the bitmap update as written, `space.set(start, start + length, true)`: `start + length` bits set from `start`, the bitmap keeping its size |
| `Slots.ExtendSpaceAsWritten` | XPlaneUDP.cpp:187-190 | with the bound re-evaluated after each append, the loop fills only half the gap (rounded up), so a gap of two or more is left partly unfilled |
| `Protocol.HeadersAreTags` | XPlaneUDP.hpp:25-29 | every header is four upper-case ASCII letters and a NUL, `HEADER_LENGTH` bytes, spelling RREF, DREF, RPOS and BECN; the RREF and RPOS tags differ |
| `Protocol.HasTag` | XPlaneUDP.cpp:224 | defines the tag test `std::equal(head, head + 4, data.begin())`: the datagram's first four bytes are the tag's four letters |
| `Protocol.PlaneInfoImage` | XPlaneUDP.hpp:47-51 | the pose record, three doubles and then ten floats, is 64 bytes long |
| `Protocol.PlaneInfoRuns` | XPlaneUDP.hpp:47-51 | the record's image holds its doubles at offsets 0-23 and its floats at 24-63 |
| `Protocol.PlaneDoublesAt` | XPlaneUDP.hpp:48 | the doubles are read back at offsets 0, 8 and 16 |
| `Protocol.PlaneFloatsAt` | XPlaneUDP.hpp:49-50 | the ten floats are read back at offsets 0, 4, ..., 36 of their run |
| `Protocol.PlaneInfoAt` | XPlaneUDP.cpp:236 | `unpack(data, HEADER_LENGTH, info)` over a record's bytes gives back that record, member by member |
| `Protocol.UnpackPlaneInfo` | XPlaneUDP.cpp:236 | defines `unpack(data, offset, info)` of the pose: doubles at `offset`, `offset + 8` and `offset + 16`, then ten floats 4 bytes apart from `offset + 24` |
| `Protocol.Zeros` | XPlaneUDP.cpp:29 | defines `std::vector<char>(n)`: `n` zero bytes |
| `Protocol.RrefFields` | XPlaneUDP.cpp:52 | an RREF request's fields take 13 bytes plus the name |
| `Protocol.RrefRequest` | XPlaneUDP.cpp:51-52 | defines a "get dataref" request: a zeroed 413-byte buffer packed with `RREF\0`, the frequency and the slot as `int32_t`, and the name; the frame stays 413 bytes |
| `Protocol.PackedFrame` | XPlaneUDP.cpp:29-30 | packing into a zeroed buffer keeps its size, puts the fields' bytes first and leaves every later byte zero |
| `Protocol.EncodeFour` | XPlaneUDP.hpp:124-137 | the width and bytes of four fields are those of each field in turn |
| `Protocol.FourParts` | XPlaneUDP.hpp:124-137 | a buffer starting with four byte strings laid end to end has each of them at its own offset |
| `Protocol.FourFieldFrame` | XPlaneUDP.hpp:124-137 | a four-field frame in a zeroed buffer has each field's bytes at its offset and zeros after the last |
| `Protocol.FourFieldBytes` | XPlaneUDP.hpp:124-137 | a buffer starting with four fields' bytes has each field at its own offset |
| `Protocol.RrefRequestLayout` | XPlaneUDP.cpp:51-53 | a "get dataref" request is 413 bytes: `RREF\0`, the frequency as int32 at bytes 5-8, the slot as int32 at 9-12, the name from byte 13, and zeros after it |
| `Protocol.RepackIntoZeroTail` | XPlaneUDP.cpp:97-104 | packing into a reused buffer whose bytes past the fields are zero gives the same frame as packing into a fresh one |
| `Protocol.RrefRequestTail` | XPlaneUDP.cpp:51-52 | every byte of an RREF request after the name is zero |
| `Protocol.DrefFields` | XPlaneUDP.cpp:119 | a DREF write's fields take 10 bytes plus the name |
| `Protocol.DrefRequest` | XPlaneUDP.cpp:117-119 | defines a "set dataref" frame: a zeroed 509-byte buffer packed with `DREF\0`, the value, the name and a NUL; the frame stays 509 bytes |
| `Protocol.DrefRequestLayout` | XPlaneUDP.cpp:116-121 | a "set dataref" frame is 509 bytes: `DREF\0`, the value's 4 bytes at 5-8, the name from byte 9, and zeros after it, which include the terminating NUL |
| `Protocol.DrefRequestTail` | XPlaneUDP.cpp:119 | every byte after the name's terminator is zero |
| `Protocol.RepackedRequest` | XPlaneUDP.cpp:97-105 | repacking the shared buffer of `changeDatarefFreq` with a name no shorter than the previous one yields exactly the fresh request, so no byte of the previous frame leaks into the next |
| `Protocol.RepackedWrite` | XPlaneUDP.hpp:167-170 | the same for the shared buffer of `setDatarefArray` |
| `Protocol.RposRequestIsSentence` | XPlaneUDP.cpp:127-132 | the pose query is `RPOS\0` followed by the decimal frequency, in a buffer of exactly its length |
| `Protocol.RposRequest` | XPlaneUDP.cpp:128-130 | defines the pose query: `RPOS\0` and the decimal frequency, in a buffer exactly as long as the header plus the digits |
| `Protocol.PayloadLength` | XPlaneUDP.cpp:225 | `data.size() - 5` is computed modulo 2^64, as `size_t` |
| `Protocol.RrefLengthOk` | XPlaneUDP.cpp:225 | defines the RREF length test as written, `(data.size() - 5) % 8 == 0` with the subtraction modulo 2^64; what it accepts is stated by `Protocol.RrefLengthOkMeans` |
| `Protocol.RrefLengthOkMeans` | XPlaneUDP.cpp:225-226 | the RREF length test passes if and only if the frame is the header followed by whole 8-byte pairs; a frame shorter than the header fails despite the wrap-around |
| `Protocol.RposLengthOk` | XPlaneUDP.cpp:234 | defines the RPOS length test as written, `(data.size() - 5) % 64 == 0` and `data.size() > 6`; what it accepts is stated by `Protocol.RposLengthOkMeans` |
| `Protocol.RposLengthOkMeans` | XPlaneUDP.cpp:234-235 | the RPOS length test passes if and only if at least one whole 64-byte record follows the header and the payload is a multiple of 64 |
| `Protocol.RrefPairs` | XPlaneUDP.cpp:227-230 | an RREF response carries `(size - 5) / 8` pairs, read at offsets 5, 13, 21, ... |
| `Protocol.PairBytes` | XPlaneUDP.cpp:230 | a `(slot, value)` pair is 8 bytes |
| `Protocol.PairAt` | XPlaneUDP.cpp:228-230 | defines `unpack(data, i, index, value)`: an `int` slot at `i` and a `float` at `i + 4` |
| `Protocol.FlattenAt` | XPlaneUDP.cpp:227 | the `j`-th 8-byte block of a response body sits at bytes `8j` to `8j + 8` |
| `Protocol.FlattenLength` | XPlaneUDP.cpp:227 | a body of `n` blocks is `8n` bytes |
| `Protocol.PairBlocks` | XPlaneUDP.cpp:227-230 | defines the body of a response: one 8-byte block per pair, in order |
| `Protocol.EncodePairs` | XPlaneUDP.cpp:225 | a response body of `n` pairs is `8n` bytes |
| `Protocol.SliceAfter` | XPlaneUDP.cpp:227 | the bytes after the header are the body |
| `Protocol.PairRoundTrip` | XPlaneUDP.cpp:230 | `unpack(data, i, index, value)` over a pair's bytes gives back the pair |
| `Protocol.ResponsePairBytes` | XPlaneUDP.cpp:227-230 | the `j`-th pair of a response sits at offset `5 + 8j` |
| `Protocol.RrefResponseRoundTrip` | XPlaneUDP.cpp:224-230 | a response built from any int32-indexed pairs carries the RREF tag, passes the length test and parses back to exactly those pairs |
| `Protocol.WritePairs` | XPlaneUDP.cpp:227-232 | writing the pairs keeps the table's size |
| `Protocol.StorePair` | XPlaneUDP.cpp:231 | a bounds-checked write keeps the table's size |
| `Protocol.WritePairsStep` | XPlaneUDP.cpp:227-232 | writing one more pair is a write of that pair after the earlier ones |
| `Protocol.LaterPairsWin` | XPlaneUDP.cpp:227-232 | a slot ends with the value of the last pair addressing it |
| `Protocol.UnaddressedSlotKept` | XPlaneUDP.cpp:227-232 | a slot no pair addresses keeps its value |
| `Protocol.WritePairsAsWritten` | XPlaneUDP.cpp:231 | the write as the code does it, with no bounds check: defined only when every index is inside the table, where it keeps the table's size |
| `Protocol.UncheckedIndexOutOfRange` | XPlaneUDP.cpp:231 | a well-formed RREF response carrying slot 1 reaches a one-slot table: it passes the tag and length tests, and its index is out of range |
| `Protocol.HeadThenBody` | XPlaneUDP.cpp:224 | a frame is its header's tag followed by the body at `HEADER_LENGTH` |
| `Protocol.RposResponseRoundTrip` | XPlaneUDP.cpp:233-236 | a pose response carries the RPOS tag and not the RREF one, is 69 bytes, passes the length test, and unpacks to the pose that was sent |
| `Protocol.ToLEHighBytesZero` | XPlaneUDP.hpp:132 | the bytes of a small value beyond its low bytes are zero |
| `Protocol.SizeTUpperHalfZero` | XPlaneUDP.cpp:30 | a `size_t` slot below 2^31 ends in four zero bytes |
| `Protocol.RrefRequestWideSlot` | XPlaneUDP.cpp:30 | defines the request as written at XPlaneUDP.cpp:30, with the `size_t` slot packed as 8 bytes; the frame is still 413 bytes |
| `Protocol.WideSlotHidesName` | XPlaneUDP.cpp:30 | with the slot packed as an 8-byte `size_t`, bytes 13-16 of the request are zero where the protocol expects the name, so the simulator reads an empty name |
| `Protocol.RrefRequestFloatFreq` | XPlaneUDP.cpp:99-103 | defines the request as written in `changeDatarefFreq`, with the `float` frequency packed as its 4-byte pattern; the frame is still 413 bytes |
| `Protocol.FloatFrequencyMisread` | XPlaneUDP.cpp:99 | a frequency of 1 packed as a `float` reads as the int32 1065353216, while packed as an int32 it reads as 1 |
| `Client.InitiallyConsistent` | XPlaneUDP.hpp:81-84 | the empty registry, table, bitmap and map satisfy the invariant |
| `Client.PlacedRangeIsDisjoint` | XPlaneUDP.cpp:27-28 | a range placed by first fit is held, every existing subscription still holds its bits, and the new range overlaps no receiving subscription |
| `Client.AddKeepsAllocation` | XPlaneUDP.cpp:47-48 | appending a first-fit subscription keeps every subscription held and disjoint |
| `Client.RenewKeepsAllocation` | XPlaneUDP.cpp:90-95 | re-placing a stopped subscription by first fit keeps every subscription held and disjoint |
| `Client.ReleaseFreesRange` | XPlaneUDP.cpp:83-87 | clearing a receiving subscription's bits and marking it stopped keeps the allocation invariant and leaves its range free |
| `Client.AddKeepsCovered` | XPlaneUDP.cpp:27-28 | after a first-fit subscription is appended, every set bit still belongs to some receiving subscription |
| `Client.RenewKeepsCovered` | XPlaneUDP.cpp:90-95 | the same when a stopped subscription is given a first-fit range |
| `Client.ReleaseKeepsCovered` | XPlaneUDP.cpp:86-87 | after a subscription is stopped and its bits are cleared, every bit still set belongs to a receiving subscription |
| `Client.ReleaseThenRenewReuses` | XPlaneUDP.cpp:83-95 | slots are recycled: after a receiving subscription is stopped, re-placing the same number of slots does not grow the bitmap, and a nonempty range lands no later than the range just freed |
| `Client.AddKeepsRegistry` | XPlaneUDP.cpp:55 | mapping a new name to the index of the appended entry keeps `exist` pointing each name at its own entry |
| `Client.RenewKeepsRegistry` | XPlaneUDP.cpp:86-94 | changing an entry without changing its name keeps the registry |
| `Client.AddKeepsConsistent` | XPlaneUDP.cpp:42-56 | adding a new name placed by first fit, with the table grown to the bitmap, keeps the whole invariant |
| `Client.RenewKeepsConsistent` | XPlaneUDP.cpp:88-95 | resuming a stopped entry keeps the whole invariant |
| `Client.ReleaseKeepsConsistent` | XPlaneUDP.cpp:83-87 | stopping a receiving subscription and clearing its bits keeps the whole invariant |
| `Client.ArrayRequests` | XPlaneUDP.cpp:49-54 | `length` requests are sent, each a 413-byte frame |
| `Client.ArrayRequestsStep` | XPlaneUDP.cpp:49-54 | the requests for `i + 1` elements are those for `i` followed by element `i`'s request |
| `Client.ArrayRequestsAddressSlots` | XPlaneUDP.cpp:49-54 | the `i`-th request carries the RREF tag, the frequency, slot `start + i` and the name `dataref[i]` |
| `Client.SubscriptionRequests` | XPlaneUDP.cpp:97-106 | re-subscribing sends one 413-byte request per slot of an array, or a single request for a scalar |
| `Client.WriteRequests` | XPlaneUDP.hpp:166-171 | `setDatarefArray` sends exactly `value.size()` 509-byte frames |
| `Client.WriteRequestsStep` | XPlaneUDP.hpp:168-170 | the frames for `i + 1` elements are those for `i` followed by element `i`'s frame |
| `Client.WriteRequestsAddressElements` | XPlaneUDP.hpp:168-170 | the `i`-th frame is `DREF\0`, then `value[i]`, then `dataref[i]`, then a NUL |
| `Client.NextWriteInBuffer` | XPlaneUDP.hpp:167-170 | packing element `i` into the buffer left by element `i - 1` yields element `i`'s fresh frame |
| `Client.NextRequestInBuffer` | XPlaneUDP.cpp:97-104 | packing element `i` into the buffer left by element `i - 1` yields element `i`'s fresh request |
| `Client.Fill` | XPlaneUDP.hpp:152 | defines what `std::ranges::fill` writes: `n` copies of the default value |
| `Client.ExistEntryAsWrittenBreaksRegistry` | XPlaneUDP.cpp:32 | after adding `"ab"` to an empty client, the stored `dataref.size() - 1` is 1, which breaks the registry, while the intended index 0 keeps it |
| `Client.ExistEntryAsWritten` | XPlaneUDP.cpp:32 | defines the handle `addDataref` records as written: `dataref.size() - 1`, computed modulo 2^64 |
| `Client.ScalarReadAsWrittenMisreads` | XPlaneUDP.cpp:71 | in a consistent client where handle 1 holds slot 2, the read as written returns slot 1, which belongs to another subscription |
| `Client.ScalarReadAsWritten` | XPlaneUDP.cpp:71 | defines the read as written: `values[handle]` for a receiving subscription, the default for a stopped one |
| `Client.MarkAsWrittenLeaks` | XPlaneUDP.cpp:172 | one slot placed at slot 1 of `[used, free, free]`: the intended update leaves every set bit owned by a receiving subscription, while the update as written sets slot 2, which no subscription owns |
| `Client.FillPrefix` | XPlaneUDP.hpp:152 | the first `n` elements of the container become the default value and the rest are unchanged |
| `Client.CopyPrefix` | XPlaneUDP.hpp:155-156 | the source is copied into the container's prefix and the rest is unchanged |
| `Client.XPlaneUdp.constructor` | XPlaneUDP.hpp:81-85 | a new client has no subscriptions, an empty table, bitmap and map, the initial pose with `track = -1`, and has sent nothing |
| `Client.XPlaneUdp.SendData` | XPlaneUDP.cpp:196-198 | the datagram is appended to what has been sent |
| `Client.XPlaneUdp.PackAndSend` | XPlaneUDP.cpp:119-120 | the buffer holds the packed frame and exactly that frame is sent |
| `Client.XPlaneUdp.SendRequest` | XPlaneUDP.cpp:51-53 | exactly one RREF request with the given frequency, slot and name is sent |
| `Client.XPlaneUdp.SendArrayRequests` | XPlaneUDP.cpp:49-54 | the requests for elements `0 .. n-1` are sent in order |
| `Client.XPlaneUdp.ResendArrayRequests` | XPlaneUDP.cpp:101-105 | with one buffer reused for every element, exactly the requests for elements `0 .. n-1` are sent in order |
| `Client.XPlaneUdp.SendNextRequest` | XPlaneUDP.cpp:103-104 | the reused buffer then holds element `i`'s request, and that request is sent |
| `Client.XPlaneUdp.ExtendSpace` | XPlaneUDP.cpp:187-190 | the table is padded with zeros to the length of the bitmap |
| `Client.XPlaneUdp.ScanFreeRun` | XPlaneUDP.cpp:165-179 | the scan loop returns the first-fit position, or the bitmap's size when no run is free |
| `Client.XPlaneUdp.FindSpace` | XPlaneUDP.cpp:164-185 | returns the first-fit start, sets the run (or appends `length` set bits when none is free), and pads the table to the bitmap |
| `Client.XPlaneUdp.Subscribe` | XPlaneUDP.cpp:27-55 | for a new name: takes the first-fit range of `length` slots, sends the subscription's requests, appends the entry and registers the name at the new handle, keeping the invariant |
| `Client.XPlaneUdp.AddDataref` | XPlaneUDP.cpp:21-34 | for a name (`dataref`, or `dataref[index]`) already registered: returns the stored handle and changes nothing. Otherwise: appends one scalar entry at the first free slot, sends its RREF request, registers the name at the new handle and returns that handle. The invariant is kept in both cases |
| `Client.XPlaneUdp.AddDatarefArray` | XPlaneUDP.cpp:42-57 | for a registered name: returns the stored handle and changes nothing. Otherwise: appends one array entry with `end - start + 1 == length` at the first-fit start, sends `length` requests (the `i`-th for slot `start + i` and name `dataref[i]`), registers the name and returns `dataRefs.size() - 1`. The invariant is kept in both cases |
| `Client.XPlaneUdp.GetDataref` | XPlaneUDP.cpp:66-73 | returns whether the subscription receives, with its first slot's value if so and the default otherwise |
| `Client.XPlaneUdp.GetDatarefArray` | XPlaneUDP.hpp:147-158 | with `n = min(size, container.size())`: a receiving subscription copies slots `[start, start + n)` into the container's prefix and returns true; a stopped one fills the prefix with the default and returns false; the rest of the container is unchanged |
| `Client.XPlaneUdp.ChangeDatarefFreq` | XPlaneUDP.cpp:80-108 | frequency 0: a receiving entry is marked stopped and exactly its bits are cleared, a stopped entry is left alone, and nothing is sent. Any other frequency: a stopped entry is re-placed by first fit with the same size and marked receiving, a receiving entry keeps its range, and one request per slot is sent. The invariant is kept throughout |
| `Client.XPlaneUdp.StopReceiving` | XPlaneUDP.cpp:83-87 | the entry is marked stopped and exactly its range of bits is cleared |
| `Client.XPlaneUdp.Resume` | XPlaneUDP.cpp:90-95 | the entry gets a first-fit range of its old size and is marked receiving |
| `Client.XPlaneUdp.Resubscribe` | XPlaneUDP.cpp:97-106 | the entry's requests, one per slot, are sent in order |
| `Client.XPlaneUdp.SetDataref` | XPlaneUDP.cpp:116-121 | exactly one DREF frame for the value and the name (`dataref` or `dataref[index]`) is sent |
| `Client.XPlaneUdp.SetDatarefArray` | XPlaneUDP.hpp:165-172 | exactly the `value.size()` DREF frames for `dataref[0]`, `dataref[1]`, ... are sent in order |
| `Client.XPlaneUdp.SendNextWrite` | XPlaneUDP.hpp:169-170 | the reused buffer then holds element `i`'s frame, and that frame is sent |
| `Client.XPlaneUdp.AddPlaneInfo` | XPlaneUDP.cpp:127-132 | exactly the pose query for the frequency is sent |
| `Client.XPlaneUdp.GetPlaneInfo` | XPlaneUDP.cpp:137-139 | returns the latest pose |
| `Client.XPlaneUdp.StorePairs` | XPlaneUDP.cpp:227-232 | the table becomes the old table with the response's pairs written in order; a pair whose slot lies outside the table is skipped |
| `Client.XPlaneUdp.ReceiveDataProcess` | XPlaneUDP.cpp:223-238 | RREF frame: if the payload is whole pairs, their values are written in order and later pairs win; otherwise nothing changes. RPOS frame with a whole 64-byte record: the pose is replaced by the record at offset 5. Anything else changes nothing. The invariant is kept |

## Left out

- `detect`, `send`, `receive` and `receiveData` (XPlaneUDP.cpp:144-157, 200-221): sockets, multicast options and asio coroutines are I/O. `sendData` appends to the ghost `outbox`. The datagram `receive` hands to `receiveDataProcess` is its parameter.
- The `io_context`, the work guard, the sockets and the endpoint (XPlaneUDP.hpp:87-91) are network state, not modelled.
- The beacon tag `BECN` is declared but never parsed, and the callback the demo programs register is not part of the client's code. main.cpp and test.cpp are demo loops and file output, not modelled.
- Floating point: `float` and `double` are opaque bit patterns that are only copied. IEEE-754 is not modelled.
- Client.XPlaneUdp.ChangeDatarefFreq: takes the frequency as an `int32`, so `freq == 0` is an integer test. The C++ parameter is a `float`, and which request bytes the source then produces is a finding below.
- Client.XPlaneUdp.AddDataref: requires the name to fit the 400 bytes a 413-byte request leaves for it. A longer name makes `pack` write past the end of the buffer, which is undefined behaviour.
- Client.XPlaneUdp.AddDatarefArray: the same for the name of the last element, and `length` must not be negative. A negative `int` becomes a huge `size_t` in `findSpace`.
- Client.XPlaneUdp.SetDataref: requires the name to fit the 499 bytes of a 509-byte write. Client.XPlaneUdp.SetDatarefArray requires this for the last element's name.
- Client.XPlaneUdp.GetDataref: requires a receiving entry to hold at least one slot. A zero-length array placed at the end of the bitmap has `start == values.size()`, and the source reads out of range. A zero-length array placed inside the bitmap, at a free slot, is excluded as well, although reading that slot is in range: it returns whatever value the table holds there.
- Client.XPlaneUdp.GetDatarefArray and Client.XPlaneUdp.SetDatarefArray: the container's elements are fixed to `float`. The `Container` concept (XPlaneUDP.hpp:13-17) admits any element type assignable from `float`. An `int` container in `getDataref` truncates each copied value (XPlaneUDP.hpp:155-156). A `double` element in `setDatarefArray` is packed as 8 bytes (XPlaneUDP.hpp:169), which moves the name to byte 13. The demo programs call both with `float` containers only.
- Handles are required to be valid, `h.idx < dataRefs.size()`. The source indexes `dataRefs` without a check.
- A received datagram shorter than four bytes is treated as matching no tag. The source's `std::equal` then reads past the end of the vector.
- `int` and `size_t` widths of `start`, `end` and slot numbers are unbounded here. The frames already carry the request fields modulo 2^32 and 2^64. Lemmas about a slot's bytes assume it is below 2^31.
- `PlaneInfo` is never packed by the source. `PlaneInfoImage` is the record's layout in memory, used to state the `unpack` round trip of RPOS responses.
- The `DatarefInfo.freq` stored at registration is never updated by `changeDatarefFreq`. The model keeps it the same way.

## Findings

| source | as written | input that shows it | evidently intended | confidence | as-written member | corrected member |
|---|---|---|---|---|---|---|
| XPlaneUDP.cpp:32 | `exist[name] = dataref.size() - 1` stores the name's length minus one | `addDataref("ab")` on an empty client stores 1, and re-adding `"ab"` returns a handle with no entry | `dataRefs.size() - 1`, as at XPlaneUDP.cpp:55 | high, not executed | `Client.ExistEntryAsWrittenBreaksRegistry` | `Client.XPlaneUdp.AddDataref` |
| XPlaneUDP.cpp:71 | `value = values[dataref.idx]` reads the slot numbered like the handle | handle 1 holding slot 2 reads slot 1 of another subscription | `values[ref.start]` | high, not executed | `Client.ScalarReadAsWrittenMisreads` | `Client.XPlaneUdp.GetDataref` |
| XPlaneUDP.cpp:172 | `space.set(start, start + length, true)` sets `start + length` bits | one slot requested from `[used, free, free]` sets slots 1 and 2, and slot 2 has no owner | set `length` bits, as at XPlaneUDP.cpp:87 | high, not executed | `Client.MarkAsWrittenLeaks` | `Slots.AllocMarksRun` |
| XPlaneUDP.cpp:188 | the loop bound `space.size() - values.size()` shrinks as `values` grows | a gap of 4 slots gets only 2 values | pad `values` to `space.size()` | high, not executed | `Slots.ExtendSpaceAsWritten` | `Client.XPlaneUdp.ExtendSpace` |
| XPlaneUDP.cpp:99 | the `float` frequency is packed as its 4-byte float pattern, here and in the array loop at XPlaneUDP.cpp:103 | frequency 1 arrives as the int32 1065353216 | pack the frequency as an `int32_t`, as `addDataref` does | medium, not executed | `Protocol.FloatFrequencyMisread` | `Protocol.RrefRequestLayout` |
| XPlaneUDP.cpp:30 | the `size_t` slot is packed as 8 bytes, so the name starts at byte 17; the same happens at XPlaneUDP.cpp:103, where `ref.start + i` is a `size_t` | any slot below 2^31 leaves bytes 13-16 zero, which reads as an empty name | pack the slot as an `int32_t`, as `addDatarefArray` does | medium, not executed | `Protocol.WideSlotHidesName` | `Protocol.RrefRequestLayout` |
| XPlaneUDP.cpp:231 | `values[index] = value` with an unchecked index | an RREF response for slot 1 received by a client with one slot | ignore pairs whose slot is outside the table | medium, not executed | `Protocol.UncheckedIndexOutOfRange` | `Client.XPlaneUdp.StorePairs` |
