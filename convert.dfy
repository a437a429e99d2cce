/**
 * convert<D>(s) and truncate<D>(s): the table of specialisations the MSA
 * backend defines, dispatched on (destination type, source type). The
 * generic templates are unusable (undefined_conversion), so a pair missing
 * from the table has no conversion at all. 128-bit pairs use one MSA
 * instruction; 256-bit and 512-bit pairs convert lo and hi independently;
 * the f64x4 <-> 32-bit pairs go through scalar casts lane by lane.
 *
 * What one lane becomes (rounding, saturation, NaN handling, the IEEE-754
 * arithmetic of each instruction and cast) is not modelled: it is the
 * parameter `num`, applied to a lane's value or bit pattern, and the result
 * is stored into a lane of the destination kind.
 */
module Convert {
  import opened Bytes
  import opened Vectors
  import opened Msa

  datatype Option<T> = None | Some(value: T)

  /**
   * The two entry points. truncate<D> rounds toward zero. convert<D> rounds
   * per the hardware mode where it uses an MSA instruction, but its f64x4 ->
   * s32x4 and f64x4 -> u32x4 pairs use the C++ casts s32(double) and
   * u32(double), which also drop the fraction.
   */
  datatype Mode = Rounding | Truncating

  /** The per-lane operations: MSA instructions and C++ scalar casts. */
  datatype LaneOp =
    | FfintUW       // __msa_ffint_u_w: u32 -> f32
    | FfintSW       // __msa_ffint_s_w: s32 -> f32
    | FtintUW       // __msa_ftint_u_w: f32 -> u32
    | FtintSW       // __msa_ftint_s_w: f32 -> s32
    | FtruncSW      // __msa_ftrunc_s_w: f32 -> s32, toward zero
    | FfintSD       // __msa_ffint_s_d: s64 -> f64
    | FtintSD       // __msa_ftint_s_d: f64 -> s64
    | FtruncSD      // __msa_ftrunc_s_d: f64 -> s64, toward zero
    | DoubleOfS32   // double(s32)
    | DoubleOfF32   // double(float)
    | DoubleOfU32   // double(u32)
    | S32OfDouble   // s32(double), toward zero
    | FloatOfDouble // float(double)
    | U32OfDouble   // u32(double), toward zero

  /** The numeric content of each lane operation, left unspecified. */
  type Numerics = (LaneOp, int) -> int

  predicate IsFloat(k: Kind)
  {
    k == F32 || k == F64
  }

  /** How a specialisation is implemented. */
  datatype Rule =
    | Native(op: LaneOp)  // one MSA instruction on a 128-bit register
    | Halves              // convert lo and hi with the half-width specialisation
    | PerHalf(op: LaneOp) // one MSA instruction on each of lo and hi
    | Scalar(op: LaneOp)  // get_component, a scalar cast, then set4
    | TruncPairs          // __msa_ftrunc_s_d on lo and hi, then s32() of each lane

  /** The number of lanes of a 128-bit register of kind k: the element count of its MSA data format. */
  function LanesPer128(k: Kind): (n: nat)
  {
    Count(Format(k))
  }

  /** The per-register lane counts of the kinds that convert and truncate use. */
  lemma ConvertKindLanes()
    ensures LanesPer128(F32) == 4 && LanesPer128(S32) == 4 && LanesPer128(U32) == 4
    ensures LanesPer128(F64) == 2 && LanesPer128(S64) == 2
  {
  }

  /** The number of lanes of a vector type. */
  function LaneCount(t: VType): (n: nat)
  {
    (t.bits / 128) * LanesPer128(t.kind)
  }

  /**
   * The specialisations of convert<D>(S) and truncate<D>(S), looked up by
   * (D, S); None for every pair that would instantiate the generic template.
   */
  function RuleOf(mode: Mode, d: VType, s: VType): (r: Option<Rule>)
    ensures r.Some? ==> LaneCount(d) == LaneCount(s)
    ensures r.Some? ==> LaneOpOf(mode, s.kind, d.kind).Some?
    ensures r.Some? && mode == Truncating ==> IsFloat(s.kind) && !IsFloat(d.kind)
    ensures r.Some? && !r.value.Halves? && !r.value.TruncPairs? ==> r.value.op == LaneOpOf(mode, s.kind, d.kind).value
    ensures r.Some? && r.value.Native? ==> d.bits == 128 && s.bits == 128 && LanesPer128(d.kind) == LanesPer128(s.kind)
    ensures r.Some? && r.value.Halves? ==> d.bits == s.bits && (s.bits == 256 || s.bits == 512)
    ensures r.Some? && r.value.PerHalf? ==> d.bits == 256 && s.bits == 256 && LanesPer128(d.kind) == LanesPer128(s.kind)
    ensures r.Some? && r.value.Scalar? ==> LaneCount(s) == 4 && (s.bits == 128 || s.bits == 256)
    ensures r.Some? && r.value.Scalar? ==> (d.bits == 128 && LanesPer128(d.kind) == 4) || (d.bits == 256 && LanesPer128(d.kind) == 2)
    ensures r.Some? && r.value.TruncPairs? ==> d == VType(S32, 128) && s == VType(F64, 256) && mode == Truncating
  {
    ConvertKindLanes();
    match mode
    case Rounding =>
      if d == VType(F32, 128) && s == VType(U32, 128) then Some(Native(FfintUW))
      else if d == VType(F32, 128) && s == VType(S32, 128) then Some(Native(FfintSW))
      else if d == VType(U32, 128) && s == VType(F32, 128) then Some(Native(FtintUW))
      else if d == VType(S32, 128) && s == VType(F32, 128) then Some(Native(FtintSW))
      else if d == VType(S32, 256) && s == VType(F32, 256) then Some(Halves)
      else if d == VType(F32, 256) && s == VType(S32, 256) then Some(Halves)
      else if d == VType(U32, 256) && s == VType(F32, 256) then Some(Halves)
      else if d == VType(F32, 256) && s == VType(U32, 256) then Some(Halves)
      else if d == VType(S32, 512) && s == VType(F32, 512) then Some(Halves)
      else if d == VType(F32, 512) && s == VType(S32, 512) then Some(Halves)
      else if d == VType(U32, 512) && s == VType(F32, 512) then Some(Halves)
      else if d == VType(F32, 512) && s == VType(U32, 512) then Some(Halves)
      else if d == VType(F64, 256) && s == VType(S32, 128) then Some(Scalar(DoubleOfS32))
      else if d == VType(F64, 256) && s == VType(F32, 128) then Some(Scalar(DoubleOfF32))
      else if d == VType(S32, 128) && s == VType(F64, 256) then Some(Scalar(S32OfDouble))
      else if d == VType(F32, 128) && s == VType(F64, 256) then Some(Scalar(FloatOfDouble))
      else if d == VType(F64, 256) && s == VType(U32, 128) then Some(Scalar(DoubleOfU32))
      else if d == VType(U32, 128) && s == VType(F64, 256) then Some(Scalar(U32OfDouble))
      else if d == VType(F64, 256) && s == VType(S64, 256) then Some(PerHalf(FfintSD))
      else if d == VType(S64, 256) && s == VType(F64, 256) then Some(PerHalf(FtintSD))
      else None
    case Truncating =>
      if d == VType(S32, 128) && s == VType(F32, 128) then Some(Native(FtruncSW))
      else if d == VType(S32, 256) && s == VType(F32, 256) then Some(Halves)
      else if d == VType(S32, 512) && s == VType(F32, 512) then Some(Halves)
      else if d == VType(S32, 128) && s == VType(F64, 256) then Some(TruncPairs)
      else None
  }

  /**
   * The reference for what a conversion does to one lane, by lane kinds
   * alone: which operation turns a source lane into a destination lane.
   */
  function LaneOpOf(mode: Mode, sk: Kind, dk: Kind): (op: Option<LaneOp>)
  {
    match (mode, sk, dk)
    case (Rounding, U32, F32) => Some(FfintUW)
    case (Rounding, S32, F32) => Some(FfintSW)
    case (Rounding, F32, U32) => Some(FtintUW)
    case (Rounding, F32, S32) => Some(FtintSW)
    case (Rounding, S32, F64) => Some(DoubleOfS32)
    case (Rounding, F32, F64) => Some(DoubleOfF32)
    case (Rounding, U32, F64) => Some(DoubleOfU32)
    case (Rounding, F64, S32) => Some(S32OfDouble)
    case (Rounding, F64, F32) => Some(FloatOfDouble)
    case (Rounding, F64, U32) => Some(U32OfDouble)
    case (Rounding, S64, F64) => Some(FfintSD)
    case (Rounding, F64, S64) => Some(FtintSD)
    case (Truncating, F32, S32) => Some(FtruncSW)
    case (Truncating, F64, S32) => Some(FtruncSD)
    case _ => None
  }

  /** An operation applied to every lane, each result stored into a lane of kind k. */
  function MapLanes(num: Numerics, op: LaneOp, k: Kind, ls: seq<int>): (r: seq<int>)
    ensures |r| == |ls|
    ensures forall i | 0 <= i < |ls| :: r[i] == Wrap(k, num(op, ls[i])) && InRange(k, r[i])
  {
    seq(|ls|, i requires 0 <= i < |ls| => Wrap(k, num(op, ls[i])))
  }

  /** T_set4(x, y, z, w): a value of type d whose lanes are x, y, z, w in order. */
  function Set4(d: VType, ls: seq<int>): (r: Vec)
    requires |ls| == 4 && forall i | 0 <= i < 4 :: InRange(d.kind, ls[i])
    requires (d.bits == 128 && LanesPer128(d.kind) == 4) || (d.bits == 256 && LanesPer128(d.kind) == 2)
    ensures Has(r, d)
    ensures Lanes(r) == ls
  {
    if d.bits == 128 then
      LeafHas(d.kind, ls);
      Leaf(d.kind, ls)
    else
      LeafHas(d.kind, ls[..2]);
      LeafHas(d.kind, ls[2..]);
      Node(Leaf(d.kind, ls[..2]), Leaf(d.kind, ls[2..]))
  }

  /** LanesPer128(k) in-range lanes make a 128-bit register of kind k. */
  lemma LeafHas(k: Kind, ls: seq<int>)
    requires |ls| == LanesPer128(k) && forall i | 0 <= i < |ls| :: InRange(k, ls[i])
    ensures Has(Leaf(k, ls), VType(k, 128))
  {
  }

  /** A 256-bit or 512-bit conversion by halves has its half-width conversion in the table. */
  lemma HalvesRule(mode: Mode, d: VType, s: VType)
    requires RuleOf(mode, d, s) == Some(Halves)
    ensures RuleOf(mode, Half(d), Half(s)).Some?
  {
  }

  /** A value of type t has LaneCount(t) lanes; at 256 bits it is a pair of registers. */
  lemma {:induction false} LaneCountOf(v: Vec, t: VType)
    requires Has(v, t)
    ensures |Lanes(v)| == LaneCount(t)
    ensures t.bits == 128 ==> v.Leaf?
    ensures t.bits == 256 ==> v.Node? && v.lo.Leaf? && v.hi.Leaf?
    ensures t.bits == 256 ==> |v.lo.lanes| == |v.hi.lanes| == LanesPer128(t.kind)
  {
    match v
    case Leaf(k, ls) =>
      match k {
        case S8 | U8 => assert |ls| * 1 == 16;
        case S16 | U16 => assert |ls| * 2 == 16;
        case S32 | U32 | F32 => assert |ls| * 4 == 16;
        case S64 | U64 | F64 => assert |ls| * 8 == 16;
      }
    case Node(lo, hi) =>
      LaneCountOf(lo, Half(t));
      LaneCountOf(hi, Half(t));
  }

  /**
   * convert<D>(s) (mode Rounding) or truncate<D>(s) (mode Truncating) for a
   * source of type s and a destination type d; None when the pair has no
   * specialisation.
   */
  function Convert(num: Numerics, mode: Mode, d: VType, s: VType, v: Vec): (r: Option<Vec>)
    requires Has(v, s)
    ensures r.Some? <==> RuleOf(mode, d, s).Some?
    ensures r.Some? ==> Has(r.value, d)
    decreases s.bits
  {
    LaneCountOf(v, s);
    match RuleOf(mode, d, s)
    case None => None
    case Some(Native(op)) =>
      var ls := MapLanes(num, op, d.kind, v.lanes);
      LeafHas(d.kind, ls);
      Some(Leaf(d.kind, ls))
    case Some(Halves) =>
      HalvesRule(mode, d, s);
      var lo := Convert(num, mode, Half(d), Half(s), v.lo);
      var hi := Convert(num, mode, Half(d), Half(s), v.hi);
      Some(Node(lo.value, hi.value))
    case Some(PerHalf(op)) =>
      var lo := MapLanes(num, op, d.kind, v.lo.lanes);
      var hi := MapLanes(num, op, d.kind, v.hi.lanes);
      LeafHas(d.kind, lo);
      LeafHas(d.kind, hi);
      Some(Node(Leaf(d.kind, lo), Leaf(d.kind, hi)))
    case Some(Scalar(op)) =>
      Some(Set4(d, MapLanes(num, op, d.kind, Lanes(v))))
    case Some(TruncPairs) =>
      Some(TruncateF64x4(num, v))
  }

  /**
   * Pairs without a specialisation have no conversion, even where a bit
   * cast or a same-kind copy would type-check: convert<s32x4>(u32x4),
   * convert<f32x4>(f32x4) and truncate<u32x4>(f32x4).
   */
  lemma UndefinedPairs(num: Numerics, u: Vec, f: Vec)
    requires Has(u, VType(U32, 128)) && Has(f, VType(F32, 128))
    ensures Convert(num, Rounding, VType(S32, 128), VType(U32, 128), u) == None
    ensures Convert(num, Rounding, VType(F32, 128), VType(F32, 128), f) == None
    ensures Convert(num, Truncating, VType(U32, 128), VType(F32, 128), f) == None
  {
  }

  /**
   * truncate<s32x4>(f64x4): __msa_ftrunc_s_d on lo and on hi gives four s64
   * lanes, and s32() of each is stored into the result, x and y from lo, z
   * and w from hi. Lane i of the result is lane i of the source truncated
   * and stored into an s32 lane.
   */
  function TruncateF64x4(num: Numerics, v: Vec): (r: Vec)
    requires Has(v, VType(F64, 256))
    ensures Has(r, VType(S32, 128))
    ensures Lanes(r) == MapLanes(num, FtruncSD, S32, Lanes(v))
  {
    LaneCountOf(v, VType(F64, 256));
    var lo := MapLanes(num, FtruncSD, S64, v.lo.lanes);
    var hi := MapLanes(num, FtruncSD, S64, v.hi.lanes);
    var ls := StoreS32(lo + hi);
    MapLanesAppend(num, FtruncSD, S64, v.lo.lanes, v.hi.lanes);
    StoreThroughS64(num, FtruncSD, Lanes(v));
    LeafHas(S32, ls);
    Leaf(S32, ls)
  }

  /** s32(x) of every s64 lane value x: the low 32 bits in two's complement. */
  function StoreS32(ls: seq<int>): (r: seq<int>)
    ensures |r| == |ls|
    ensures forall i | 0 <= i < |ls| :: r[i] == Wrap(S32, ls[i]) && InRange(S32, r[i])
  {
    seq(|ls|, i requires 0 <= i < |ls| => Wrap(S32, ls[i]))
  }

  /** Storing the results into s64 lanes and then casting each to s32 is storing them into s32 lanes. */
  lemma StoreThroughS64(num: Numerics, op: LaneOp, x: seq<int>)
    ensures StoreS32(MapLanes(num, op, S64, x)) == MapLanes(num, op, S32, x)
  {
    forall i | 0 <= i < |x|
      ensures StoreS32(MapLanes(num, op, S64, x))[i] == MapLanes(num, op, S32, x)[i]
    {
      WrapThroughS64(num(op, x[i]));
    }
  }

  /** Storing into an s64 lane and then casting to s32 is storing into an s32 lane. */
  lemma WrapThroughS64(x: int)
    ensures Wrap(S32, Wrap(S64, x)) == Wrap(S32, x)
  {
    var y := Wrap(S64, x);
    var p := Pow256(4);
    PowAdd(4, 4);
    assert Pow256(Size(S64)) == p * p;
    var q := (x - y) / (p * p);
    assert x - y == (p * p) * q;
    MulAssoc(p, p, q);
    WrapCongruent(S32, x, y, p * q);
  }

  lemma MulAssoc(a: int, b: int, c: int)
    ensures (a * b) * c == a * (b * c)
  {
  }

  /** Values that differ by a multiple of 2^(8 * Size(k)) are stored as the same lane value. */
  lemma WrapCongruent(k: Kind, x: int, y: int, c: int)
    requires x - y == Pow256(Size(k)) * c
    ensures Wrap(k, x) == Wrap(k, y)
  {
    var p := Pow256(Size(k));
    DivModUnique(x - y, p, c, 0);
    CongruentMod(x, y, p);
  }

  /**
   * Every defined conversion keeps lane count and lane order: lane i of the
   * result is lane i of the source put through the pair's lane operation.
   */
  lemma {:induction false} ConvertLanes(num: Numerics, mode: Mode, d: VType, s: VType, v: Vec)
    requires Has(v, s) && RuleOf(mode, d, s).Some?
    ensures LaneOpOf(mode, s.kind, d.kind).Some?
    ensures Lanes(Convert(num, mode, d, s, v).value)
         == MapLanes(num, LaneOpOf(mode, s.kind, d.kind).value, d.kind, Lanes(v))
    decreases s.bits
  {
    LaneCountOf(v, s);
    var op := LaneOpOf(mode, s.kind, d.kind).value;
    var r := Convert(num, mode, d, s, v).value;
    match RuleOf(mode, d, s).value
    case Native(_) =>
    case Halves =>
      HalvesRule(mode, d, s);
      ConvertLanes(num, mode, Half(d), Half(s), v.lo);
      ConvertLanes(num, mode, Half(d), Half(s), v.hi);
      MapLanesAppend(num, op, d.kind, Lanes(v.lo), Lanes(v.hi));
    case PerHalf(_) =>
      MapLanesAppend(num, op, d.kind, Lanes(v.lo), Lanes(v.hi));
    case Scalar(_) =>
    case TruncPairs =>
  }

  lemma MapLanesAppend(num: Numerics, op: LaneOp, k: Kind, a: seq<int>, b: seq<int>)
    ensures MapLanes(num, op, k, a + b) == MapLanes(num, op, k, a) + MapLanes(num, op, k, b)
  {
  }

  /**
   * A 256-bit or 512-bit conversion is lane for lane the conversion of lo
   * followed by the conversion of hi.
   */
  lemma ConvertComposite(num: Numerics, mode: Mode, d: VType, s: VType, v: Vec)
    requires Has(v, s) && RuleOf(mode, d, s) == Some(Halves)
    ensures v.Node? && RuleOf(mode, Half(d), Half(s)).Some?
    ensures Lanes(Convert(num, mode, d, s, v).value)
         == Lanes(Convert(num, mode, Half(d), Half(s), v.lo).value)
          + Lanes(Convert(num, mode, Half(d), Half(s), v.hi).value)
  {
    ConvertLanes(num, mode, d, s, v);
    ConvertLanes(num, mode, Half(d), Half(s), v.lo);
    ConvertLanes(num, mode, Half(d), Half(s), v.hi);
    var op := LaneOpOf(mode, s.kind, d.kind).value;
    assert MapLanes(num, op, d.kind, Lanes(v.lo) + Lanes(v.hi))
        == MapLanes(num, op, d.kind, Lanes(v.lo)) + MapLanes(num, op, d.kind, Lanes(v.hi));
  }

  /** Two sources whose lanes agree convert to the same value. */
  lemma ConvertDeterminedByLanes(num: Numerics, mode: Mode, d: VType, s: VType, v: Vec, w: Vec)
    requires Has(v, s) && Has(w, s) && RuleOf(mode, d, s).Some? && Lanes(v) == Lanes(w)
    ensures Convert(num, mode, d, s, v) == Convert(num, mode, d, s, w)
  {
    ConvertLanes(num, mode, d, s, v);
    ConvertLanes(num, mode, d, s, w);
    LanesDetermine(Convert(num, mode, d, s, v).value, Convert(num, mode, d, s, w).value, d);
  }
}
