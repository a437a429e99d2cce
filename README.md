# MSA vector conversions of the mango SIMD layer

This project models `include/mango/simd/msa_convert.hpp`. It is the MIPS
MSA backend's layer for reinterpretation, lane widening and narrowing, the
lo/hi pairing of composite vectors, and numeric conversion.

- **Vector values (`Vectors`).** A 128-bit hardware vector is a `Leaf`: an
  element kind and its lanes. A 256-bit or 512-bit `composite_vector` is a
  `Node` of a `lo` and a `hi` half of the same kind, and `lo` holds the
  lower-numbered lanes. Signed integer lanes hold two's-complement values.
  Unsigned and floating-point lanes hold their unsigned bit pattern, so an
  f32 lane is its IEEE-754 encoding. A vector's bytes are its lanes encoded
  little-endian (`Bytes`).
- **MSA instructions (`Msa`).** FILL, ILVR, ILVL, CLT_S and VSHF are written
  at element level, as the MSA instruction set defines them. The backend's
  widening and narrowing are composed from these definitions, not from
  their intended effect.
- **Reinterpretation (`Reinterpret`).**
  - `detail::reinterpret_vector<128>` holds a register as four u32 lanes. It
    is built from any 128-bit type by a vector cast, or by a 16-byte copy
    for f64x2.
  - `reinterpret_vector<256>` and `reinterpret_vector<512>` hold a view of
    `lo` and a view of `hi`.
  - `reinterpret<D>(s)` requires equal sizes. It keeps every byte and
    round-trips.
- **Widening and narrowing (`Extend`).**
  - `extend16x8`, `extend32x4` and `extend32x8` zero-extend unsigned lanes
    and sign-extend signed ones. The exception is `extend32x4(s8x16)` as
    written, whose upper halfwords take the wrong sign (see Findings).
  - `extend16x8` and `extend32x4` keep the low lanes of their source.
    `extend32x8` keeps all eight: lanes 0..3 in `lo` and 4..7 in `hi`.
  - `narrow(a, b)` keeps the low half of every lane of its two sources and
    does not saturate.
- **Pairing (`Pairing`).** `get_low`, `get_high`, `set_low`, `set_high` and
  `combine` for u32x8, s32x8, f32x8 and f64x4 obey the pairing laws.
- **Conversion (`Convert`).**
  - `convert<D>(s)` and `truncate<D>(s)` are a table of specialisations.
    Every pair outside the table hits the unusable generic template and
    has no result (`None`).
  - A 128-bit pair is one MSA instruction.
  - A 256-bit or 512-bit pair converts `lo` and `hi` with the half-width
    specialisation.
  - The f64x4 pairs with a 32-bit vector go through scalar casts, one lane
    at a time.
  - Every defined conversion maps lane i of the source to lane i of the
    result through one per-lane operation, which is fixed by the two lane
    kinds alone.
  - What that operation does numerically is a parameter, `num`.

Narrow order: the code and the documented contract disagree. The contract
of `narrow(a, b)` puts the lanes of `a` first. The code's VSHF control
selects the lanes of `b` first. The model follows the code in
`Extend.NarrowAsWritten` and records the discrepancy under Findings.
`Extend.Narrow` is the corrected definition (`a` first), and the rest of
the model uses it.

## Model

| member | source | states |
|---|---|---|
| Reinterpret.Capture | include/mango/simd/msa_convert.hpp:24-72 | the converting constructors of reinterpret_vector (vector cast, or a 16-byte copy for f64x2; lo and hi views for composites) give a view of the vector's width holding exactly its bytes |
| Reinterpret.Release | include/mango/simd/msa_convert.hpp:74-122 | the conversion operators give a value of the requested type (right lane count, lanes in range, composite shape) whose bytes are exactly the view's bytes |
| Reinterpret.Reinterpret | include/mango/simd/msa_convert.hpp:171-183 | reinterpret<D>(s), defined only for equal sizes, yields a value of type D with the same bytes as s |
| Reinterpret.ReinterpretRoundTrip | include/mango/simd/msa_convert.hpp:171-183 | reinterpret<A>(reinterpret<B>(v)) == v for every same-size B |
| Reinterpret.Reinterpret128 | include/mango/simd/msa_convert.hpp:17-123 | at 128 bits the detour through the u32x4 view equals the direct bit cast from the source kind to the destination kind |
| Reinterpret.ReinterpretLanes | include/mango/simd/msa_convert.hpp:125-163 | reinterpreting a composite half by half gives the lanes of one flat bit cast of the whole 256-bit or 512-bit pattern |
| Reinterpret.ReinterpretHalves | include/mango/simd/msa_convert.hpp:125-163 | a composite is reinterpreted by reinterpreting lo and hi independently, keeping the pairing |
| Vectors.DecodeEncode | include/mango/simd/msa_convert.hpp:24-27 | decoding the bytes of in-range lanes as the same kind gives the lanes back, so a vector cast and its inverse restore the lanes |
| Vectors.EncodeDecode | include/mango/simd/msa_convert.hpp:74-77 | re-encoding the lanes decoded from a whole number of lanes gives the same bytes, so a vector cast loses no bit |
| Vectors.LanesDetermine | include/mango/simd/msa_convert.hpp:293-321 | two values of one vector type with equal lanes are equal, so composites are determined by their lane sequence |
| Msa.Fill | include/mango/simd/msa_convert.hpp:207 | __msa_fill_df(x) is a 16-byte register (each element x reduced to the element width, stated by Msa.FillElem) |
| Msa.Ilvr | include/mango/simd/msa_convert.hpp:207 | __msa_ilvr_df(ws, wt) of two registers is a register (its element placement is stated by Msa.IlvrElem) |
| Msa.Ilvl | include/mango/simd/msa_convert.hpp:223 | __msa_ilvl_df(ws, wt) of two registers is a register (its element placement is stated by Msa.IlvlElem) |
| Msa.CltS | include/mango/simd/msa_convert.hpp:236 | __msa_clt_s_df(ws, wt) of two registers is a register (its all-ones/zero elements are stated by Msa.CltSElem) |
| Msa.Vshf | include/mango/simd/msa_convert.hpp:268 | __msa_vshf_df(wd, ws, wt) of three registers is a register (its element selection is stated by Msa.VshfElem) |
| Msa.FillElem | include/mango/simd/msa_convert.hpp:207 | every element of __msa_fill_df(x) is x encoded in the element width |
| Msa.IlvrElem | include/mango/simd/msa_convert.hpp:207 | __msa_ilvr_df(ws, wt) places element i of wt at 2i and element i of ws at 2i+1 |
| Msa.IlvlElem | include/mango/simd/msa_convert.hpp:223 | __msa_ilvl_df(ws, wt) places element n/2+i of wt at 2i and of ws at 2i+1 |
| Msa.CltSElem | include/mango/simd/msa_convert.hpp:236 | each element of __msa_clt_s_df is all ones when the signed element of ws is below that of wt, else zero |
| Msa.VshfElem | include/mango/simd/msa_convert.hpp:268 | element i of __msa_vshf_df is zero for a control byte with bit 6 or 7 set, else element k of wt for k < n and element k-n of ws otherwise (k the control mod 2n) |
| Extend.ZeroWidenElem | include/mango/simd/msa_convert.hpp:207 | ilvr(fill(0), x) turns element i of width w into element i of width 2w with the same unsigned value |
| Extend.SignWidenElem | include/mango/simd/msa_convert.hpp:236-237 | ilvr(clt_s(x, fill(0)), x) turns element i of width w into element i of width 2w with the same signed value |
| Extend.Extend16x8U8 | include/mango/simd/msa_convert.hpp:205-208 | extend16x8(u8x16) = ilvr_b(fill_b(0), s) returns a u16x8 value (its lanes: Extend.Extend16x8U8Lanes) |
| Extend.Extend16x8U8Lanes | include/mango/simd/msa_convert.hpp:205-208 | extend16x8(u8x16) has lanes s[0..8], zero-extended to u16 |
| Extend.Extend32x4U8 | include/mango/simd/msa_convert.hpp:210-214 | extend32x4(u8x16), two zero-interleaving steps, returns a u32x4 value (its lanes: Extend.Extend32x4U8Lanes) |
| Extend.Extend32x4U8Lanes | include/mango/simd/msa_convert.hpp:210-214 | extend32x4(u8x16) has lanes s[0..4], zero-extended to u32 through the u16 step |
| Extend.Extend32x4U16 | include/mango/simd/msa_convert.hpp:216-219 | extend32x4(u16x8) = ilvr_h(fill_h(0), s) returns a u32x4 value (its lanes: Extend.Extend32x4U16Lanes) |
| Extend.Extend32x4U16Lanes | include/mango/simd/msa_convert.hpp:216-219 | extend32x4(u16x8) has lanes s[0..4], zero-extended to u32 |
| Extend.HighToLowLanes | include/mango/simd/msa_convert.hpp:223 | ilvl_d(s, s) brings lanes 4..7 of a 16-bit vector into lanes 0..3 |
| Extend.Extend32x8U16 | include/mango/simd/msa_convert.hpp:221-228 | extend32x8(u16x8) returns a u32x8 composite of extend32x4(s) and extend32x4(ilvl_d(s, s)) (its lanes: Extend.Extend32x8U16Lanes) |
| Extend.Extend32x8U16Lanes | include/mango/simd/msa_convert.hpp:221-228 | extend32x8(u16x8) has lanes 0..3 in lo and 4..7 in hi, in order: its lanes are exactly s's lanes |
| Extend.Extend16x8S8 | include/mango/simd/msa_convert.hpp:234-238 | extend16x8(s8x16) = ilvr_b(clt_s_b(s, 0), s) returns an s16x8 value (its lanes: Extend.Extend16x8S8Lanes) |
| Extend.Extend16x8S8Lanes | include/mango/simd/msa_convert.hpp:234-238 | extend16x8(s8x16) has lanes s[0..8] with their signed values kept |
| Extend.Extend32x4S8AsWritten | include/mango/simd/msa_convert.hpp:240-244 | extend32x4(s8x16) as written, with the halfword mask clt_s_h(s, 0), returns an s32x4 value (its lanes: Extend.Extend32x4S8AsWrittenLane) |
| Extend.Extend32x4S8AsWrittenLane | include/mango/simd/msa_convert.hpp:240-244 | as written, lane i of extend32x4(s8x16) is s[i] with the upper halfword taken from the sign of byte 2i+1 instead of byte i |
| Extend.Extend32x4S8 | include/mango/simd/msa_convert.hpp:240-244 | the corrected extend32x4(s8x16), with the halfword mask taken from temp16, returns an s32x4 value (its lanes: Extend.Extend32x4S8Lanes) |
| Extend.Extend32x4S8Lanes | include/mango/simd/msa_convert.hpp:240-244 | with the halfword mask computed from temp16, extend32x4(s8x16) has lanes s[0..4] with their signed values kept |
| Extend.Extend32x4S8Counterexample | include/mango/simd/msa_convert.hpp:243 | for s = [-1, 0, ..., 0] the as-written lane 0 is 65535 while the corrected one is -1 |
| Extend.Extend32x4S16 | include/mango/simd/msa_convert.hpp:246-250 | extend32x4(s16x8) = ilvr_h(clt_s_h(s, 0), s) returns an s32x4 value (its lanes: Extend.Extend32x4S16Lanes) |
| Extend.Extend32x4S16Lanes | include/mango/simd/msa_convert.hpp:246-250 | extend32x4(s16x8) has lanes s[0..4] with their signed values kept |
| Extend.Extend32x8S16 | include/mango/simd/msa_convert.hpp:252-259 | extend32x8(s16x8) returns an s32x8 composite of extend32x4(s) and extend32x4(ilvl_d(s, s)) (its lanes: Extend.Extend32x8S16Lanes) |
| Extend.Extend32x8S16Lanes | include/mango/simd/msa_convert.hpp:252-259 | extend32x8(s16x8) has lanes 0..3 in lo and 4..7 in hi, their signed values kept: its lanes are exactly s's lanes |
| Extend.Narrowed | include/mango/simd/msa_convert.hpp:265-287 | each narrow overload's result lanes are half as wide as its source lanes and of the same signedness |
| Extend.NarrowControlByte | include/mango/simd/msa_convert.hpp:267 | element j of the control vector {0, 2, 4, ...} selects source element 2j |
| Extend.LowHalf | include/mango/simd/msa_convert.hpp:265-287 | element 2j of a wide register read at half width is lane j reduced into the narrow lane's range (its low half) |
| Extend.NarrowShuffleLanes | include/mango/simd/msa_convert.hpp:265-287 | vshf with the even-element control over (ws, wt) gives the wrapped lanes of wt followed by those of ws, with no saturation |
| Extend.NarrowAsWritten | include/mango/simd/msa_convert.hpp:265-287 | narrow(a, b) as written, vshf(control, a, b), returns a 128-bit value of the half-width kind (its lanes: Extend.NarrowAsWrittenLanes) |
| Extend.NarrowAsWrittenLanes | include/mango/simd/msa_convert.hpp:265-287 | as written, narrow(a, b) is b's lanes reduced modulo the narrow width followed by a's |
| Extend.Narrow | include/mango/simd/msa_convert.hpp:265-287 | the corrected narrow(a, b), vshf(control, b, a), returns a 128-bit value of the half-width kind (its lanes: Extend.NarrowLanes) |
| Extend.NarrowLanes | include/mango/simd/msa_convert.hpp:265-287 | the corrected narrow(a, b) is a's lanes reduced modulo the narrow width followed by b's, 8 (or 4) from each |
| Extend.NarrowOrderCounterexample | include/mango/simd/msa_convert.hpp:265-269 | for a = all 1 and b = all 0 (u16x8) the as-written lane 0 is 0, the corrected one is 1 |
| Extend.NarrowExtendU16 | include/mango/simd/msa_convert.hpp:265-269 | for the corrected narrow, when a's lanes fit in u8, extend16x8(narrow(a, b)) == a: narrowing loses nothing in range |
| Extend.NarrowExtendS16 | include/mango/simd/msa_convert.hpp:277-281 | for the corrected narrow, when a's lanes fit in s8, extend16x8(narrow(a, b)) == a |
| Extend.NarrowAsWrittenExtendU16 | include/mango/simd/msa_convert.hpp:265-269 | for narrow as written, when b's lanes fit in u8, extend16x8(narrow(a, b)) == b: the code gives back b, not a |
| Extend.NarrowAsWrittenExtendS16 | include/mango/simd/msa_convert.hpp:277-281 | for narrow as written, when b's lanes fit in s8, extend16x8(narrow(a, b)) == b |
| Pairing.HalfShape | include/mango/simd/msa_convert.hpp:293-301 | a 256-bit composite's lo holds the first half of its lanes and hi the second, with equal lane counts |
| Pairing.GetLow | include/mango/simd/msa_convert.hpp:293-296 | get_low(a) (u32x8, s32x8 at 327, f32x8 at 361, f64x4 at 521) is a 128-bit value holding the first half of a's lanes |
| Pairing.GetHigh | include/mango/simd/msa_convert.hpp:298-301 | get_high(a) (also 332, 366, 526) is a 128-bit value holding the second half of a's lanes |
| Pairing.SetLow | include/mango/simd/msa_convert.hpp:303-307 | set_low(a, low) (also 337, 371, 531) has low's lanes followed by the second half of a's |
| Pairing.SetHigh | include/mango/simd/msa_convert.hpp:309-313 | set_high(a, high) (also 343, 377, 537) has the first half of a's lanes followed by high's |
| Pairing.Combine | include/mango/simd/msa_convert.hpp:315-321 | combine(a, b) (also 349, 383, 543) has a's lanes followed by b's |
| Pairing.GetLowCombine | include/mango/simd/msa_convert.hpp:293-321 | get_low(combine(a, b)) == a and get_high(combine(a, b)) == b |
| Pairing.CombineSplit | include/mango/simd/msa_convert.hpp:293-321 | combine(get_low(v), get_high(v)) == v |
| Pairing.SetLowGet | include/mango/simd/msa_convert.hpp:293-307 | set_low replaces only lo: get_low reads back the new half and get_high the old one |
| Pairing.SetHighGet | include/mango/simd/msa_convert.hpp:293-313 | set_high replaces only hi: get_high reads back the new half and get_low the old one |
| Pairing.SetOwnHalves | include/mango/simd/msa_convert.hpp:293-313 | writing back a half the value already has changes nothing |
| Pairing.SetLowTwice | include/mango/simd/msa_convert.hpp:303-313 | the last set_low wins, and set_low and set_high commute |
| Convert.RuleOf | include/mango/simd/msa_convert.hpp:189-199 | only the specialised pairs are defined (every other pair instantiates the unusable template); a defined pair keeps the lane count, has a per-lane operation that agrees with the lane-kind reference LaneOpOf, and truncate exists only from float to integer lanes |
| Convert.Convert | include/mango/simd/msa_convert.hpp:425-515 | convert/truncate yields a value exactly for the pairs in the table, and that value has the destination type; 256-bit and 512-bit pairs recurse into lo and hi |
| Convert.HalvesRule | include/mango/simd/msa_convert.hpp:425-515 | every pair converted by halves has its half-width specialisation, at 256 and at 512 bits |
| Convert.ConvertLanes | include/mango/simd/msa_convert.hpp:393-641 | every defined conversion is lane for lane the per-lane operation of its two lane kinds, each result stored into a destination lane, in lane order |
| Convert.ConvertComposite | include/mango/simd/msa_convert.hpp:425-515 | a 256-bit or 512-bit conversion is the conversion of lo followed by the conversion of hi |
| Convert.ConvertDeterminedByLanes | include/mango/simd/msa_convert.hpp:425-432 | two sources with the same lanes convert to the same value |
| Convert.UndefinedPairs | include/mango/simd/msa_convert.hpp:189-193 | convert<s32x4>(u32x4), convert<f32x4>(f32x4) and truncate<u32x4>(f32x4) have no specialisation and so no result |
| Convert.Set4 | include/mango/simd/msa_convert.hpp:558 | T_set4(x, y, z, w) is a value of the destination type with lanes x, y, z, w in order |
| Convert.TruncateF64x4 | include/mango/simd/msa_convert.hpp:611-621 | truncate<s32x4>(f64x4) takes x, y from lo and z, w from hi: lane i is source lane i truncated and stored as s32 |
| Convert.StoreThroughS64 | include/mango/simd/msa_convert.hpp:614-619 | truncating into s64 lanes and then casting each to s32 is truncating straight into s32 lanes |
| Convert.WrapThroughS64 | include/mango/simd/msa_convert.hpp:616-619 | s32(x) of a value stored in an s64 lane is the value stored straight into an s32 lane |

## Left out

- The numerics of each lane conversion are left out. These are `__msa_ffint_*`, `__msa_ftint_*`, `__msa_ftrunc_*` and the scalar `double(...)`, `float(...)`, `s32(...)` and `u32(...)` casts at lines 393-421 and 551-641. Each is the parameter `num` applied to a lane's value or bit pattern. The model fixes only which operation each lane gets and that its result is stored into the destination lane, reduced into that lane's range.
- The hardware rounding mode is left out. So are out-of-range and NaN behaviour and the undefined behaviour of a C++ cast of an out-of-range double. All of these sit inside `num`.
- Convert.TruncateF64x4: the store into an s64 lane and then the `s32(...)` cast are taken as two's-complement reductions. A C++ cast of an out-of-range s64 to s32 was implementation-defined before C++20.
- The f16x4 conversions (lines 647-666) are left out. f16x4 is not an MSA register type. Its lanes are converted by scalar half-float code, which is not part of this model.
- `get_component`, `get_x`...`get_w` and the `T_set4` constructors are defined in other headers. Here they are taken to read and write lanes by index, with lane 0 in the lowest bytes (`Convert.Set4`).
- Compile-time errors are modelled as follows. The `static_assert` in `reinterpret` becomes a precondition (`d.bits == s.bits`). The unusable generic `convert`/`truncate` template becomes `None` from `Convert.Convert`.
- Vector types are checked by the predicate `Has(v, type)`, not by distinct Dafny types. Every operation requires its argument types exactly as the C++ overloads do.
- `convert<s32x4>(f64x4)` (lines 571-579) and `convert<u32x4>(f64x4)` (lines 601-609) convert each lane with the C++ casts `s32(double)` and `u32(double)`. These drop the fraction, so these two `convert` pairs truncate rather than round per the hardware mode. The model records only the lane operation (`S32OfDouble`, `U32OfDouble`); the rounding itself sits inside `num`.
- Big-endian MIPS targets are left out. The model assumes a little-endian target: element 0 at the lowest address, least significant byte first (`Bytes`).
- The aliasing of `reinterpret_vector`'s single storage with the source register is not modelled. The model keeps the bytes, and bytes are all that `reinterpret` exposes.

## Findings

| source | as written | input that shows it | evidently intended | confidence | as-written member | corrected member |
|---|---|---|---|---|---|---|
| include/mango/simd/msa_convert.hpp:243 | the halfword sign mask for `extend32x4(s8x16)` is `__msa_clt_s_h(s, fill_h(0))`, computed on `s` viewed as 16-bit lanes, so the upper half of lane i copies the sign of byte 2i+1 | s = [-1, 0, 0, ..., 0] as s8x16: lane 0 becomes 65535 | the mask computed on `temp16`, so that every lane i equals s[i] sign-extended | not executed | Extend.Extend32x4S8AsWritten, Extend.Extend32x4S8Counterexample | Extend.Extend32x4S8, Extend.Extend32x4S8Lanes |
| include/mango/simd/msa_convert.hpp:265-287 | `__msa_vshf_b/h(control, a, b)` with control 0, 2, 4, ... selects from its last operand `b` for indices below the element count, so the lanes of `b` come first | a = all 1, b = all 0 as u16x8: lane 0 of narrow(a, b) is 0 | a's narrowed lanes followed by b's, as the narrowing contract states | not executed | Extend.NarrowAsWritten, Extend.NarrowOrderCounterexample, Extend.NarrowAsWrittenExtendU16 | Extend.Narrow, Extend.NarrowLanes, Extend.NarrowExtendU16 |
