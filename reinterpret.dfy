/**
 * reinterpret<D>(s): the same bits viewed as another vector type of the same
 * size. detail::reinterpret_vector<128> holds the register as a u32x4, built
 * from any 128-bit type by a vector cast (by a 16-byte copy for f64x2) and
 * turned into any 128-bit type by another cast; reinterpret_vector<256> and
 * <512> hold a lo and a hi view and recurse into the composite halves.
 */
module Reinterpret {
  import opened Bytes
  import opened Vectors

  /** The vector cast `(T::vector) v`: the lanes of kind `to` in the bits of lanes of kind `from`. */
  function BitCast(from: Kind, to: Kind, ls: seq<int>): (r: seq<int>)
  {
    DecodeLanes(to, EncodeLanes(from, ls))
  }

  /** detail::reinterpret_vector<bits>: a u32x4 register, or a lo and a hi view. */
  datatype View = View128(data: seq<int>) | ViewPair(lo: View, hi: View)

  /** The bits a view holds. */
  function ViewImage(w: View): (bs: seq<Byte>)
  {
    match w
    case View128(data) => EncodeLanes(U32, data)
    case ViewPair(lo, hi) => ViewImage(lo) + ViewImage(hi)
  }

  /** A view of a `bits`-wide vector: four u32 lanes at 128 bits, two half views above. */
  predicate ViewOf(w: View, bits: nat)
  {
    match w
    case View128(data) => bits == 128 && |data| == 4
    case ViewPair(lo, hi) => (bits == 256 || bits == 512) && ViewOf(lo, bits / 2) && ViewOf(hi, bits / 2)
  }

  /** The converting constructors of reinterpret_vector: the view holds exactly the bits of v. */
  function Capture(v: Vec, t: VType): (w: View)
    requires Has(v, t)
    ensures ViewOf(w, t.bits)
    ensures ViewImage(w) == Image(v)
  {
    match v
    case Leaf(k, ls) =>
      HasShape(v, t);
      DecodeLanesLength(U32, Image(v), 4);
      EncodeDecode(U32, Image(v), 4);
      View128(BitCast(k, U32, ls))
    case Node(lo, hi) =>
      ViewPair(Capture(lo, Half(t)), Capture(hi, Half(t)))
  }

  /** The conversion operators of reinterpret_vector: a value of type t holding exactly the view's bits. */
  function Release(w: View, t: VType): (v: Vec)
    requires ViewOf(w, t.bits)
    ensures Has(v, t)
    ensures Image(v) == ViewImage(w)
  {
    match w
    case View128(data) =>
      var n := 16 / Size(t.kind);
      assert n * Size(t.kind) == 16;
      EncodeLanesLength(U32, data);
      DecodeLanesLength(t.kind, ViewImage(w), n);
      DecodeLanesInRange(t.kind, ViewImage(w));
      EncodeDecode(t.kind, ViewImage(w), n);
      Leaf(t.kind, BitCast(U32, t.kind, data))
    case ViewPair(lo, hi) =>
      Node(Release(lo, Half(t)), Release(hi, Half(t)))
  }

  /**
   * reinterpret<D>(s) for a source of type s and a destination type d of the
   * same size (the static_assert): a value of type d with the same bits.
   */
  function Reinterpret(d: VType, s: VType, v: Vec): (r: Vec)
    requires Has(v, s) && d.bits == s.bits
    ensures Has(r, d)
    ensures Image(r) == Image(v)
  {
    Release(Capture(v, s), d)
  }

  /** Reinterpreting to another type and back gives the original value. */
  lemma ReinterpretRoundTrip(v: Vec, s: VType, d: VType)
    requires Has(v, s) && d.bits == s.bits
    ensures Reinterpret(s, d, Reinterpret(d, s, v)) == v
  {
    ImageDetermines(Reinterpret(s, d, Reinterpret(d, s, v)), v, s);
  }

  /**
   * Reinterpreting a composite half by half gives the lanes of one flat
   * reinterpretation of its whole 256-bit or 512-bit pattern.
   */
  lemma ReinterpretLanes(v: Vec, s: VType, d: VType)
    requires Has(v, s) && d.bits == s.bits
    ensures Lanes(Reinterpret(d, s, v)) == BitCast(s.kind, d.kind, Lanes(v))
  {
    var r := Reinterpret(d, s, v);
    HasShape(r, d);
    HasShape(v, s);
    DecodeEncode(d.kind, Lanes(r));
  }

  /** A composite is reinterpreted by reinterpreting lo and hi, keeping the pairing. */
  lemma ReinterpretHalves(v: Vec, s: VType, d: VType)
    requires Has(v, s) && d.bits == s.bits && v.Node?
    ensures Reinterpret(d, s, v).Node?
    ensures Reinterpret(d, s, v).lo == Reinterpret(Half(d), Half(s), v.lo)
    ensures Reinterpret(d, s, v).hi == Reinterpret(Half(d), Half(s), v.hi)
  {
  }

  /** At 128 bits, the detour through the u32x4 view is the direct cast from s to d. */
  lemma {:induction false} Reinterpret128(v: Vec, s: VType, d: VType)
    requires Has(v, s) && s.bits == 128 && d.bits == 128
    ensures Reinterpret(d, s, v) == Leaf(d.kind, BitCast(s.kind, d.kind, v.lanes))
  {
    HasShape(v, s);
    EncodeDecode(U32, Image(v), 4);
  }
}
