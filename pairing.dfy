/**
 * get_low, get_high, set_low, set_high and combine for the 256-bit
 * composites u32x8, s32x8, f32x8 and f64x4: a composite's lo half holds its
 * lower-numbered lanes and its hi half the rest.
 */
module Pairing {
  import opened Vectors

  /** The composites these operations are defined for. */
  predicate Pairable(k: Kind)
  {
    k == U32 || k == S32 || k == F32 || k == F64
  }

  function Type256(k: Kind): VType
  {
    VType(k, 256)
  }

  function Type128(k: Kind): VType
  {
    VType(k, 128)
  }

  /** Both halves of a 256-bit value have the same number of lanes, and it is the lane count of a 128-bit value. */
  lemma HalfShape(a: Vec, k: Kind)
    requires Has(a, Type256(k))
    ensures a.Node? && a.lo.Leaf? && a.hi.Leaf?
    ensures |Lanes(a.lo)| * Size(k) == 16 && |Lanes(a.hi)| * Size(k) == 16
    ensures |Lanes(a)| == 2 * |Lanes(a.lo)|
    ensures Lanes(a.lo) == Lanes(a)[..|Lanes(a)| / 2]
    ensures Lanes(a.hi) == Lanes(a)[|Lanes(a)| / 2..]
  {
    var n := |Lanes(a.lo)|;
    assert |Lanes(a.hi)| == n by {
      if |Lanes(a.hi)| < n {
        MulLess(|Lanes(a.hi)|, n, Size(k));
      } else if |Lanes(a.hi)| > n {
        MulLess(n, |Lanes(a.hi)|, Size(k));
      }
    }
  }

  lemma MulLess(x: nat, y: nat, z: nat)
    requires x < y && z > 0
    ensures x * z < y * z
  {
  }

  /** get_low(a): the lower half of a's lanes. */
  function GetLow(k: Kind, a: Vec): (r: Vec)
    requires Pairable(k) && Has(a, Type256(k))
    ensures Has(r, Type128(k))
    ensures 2 * |r.lanes| == |Lanes(a)|
    ensures r.lanes == Lanes(a)[..|Lanes(a)| / 2]
  {
    HalfShape(a, k);
    a.lo
  }

  /** get_high(a): the upper half of a's lanes. */
  function GetHigh(k: Kind, a: Vec): (r: Vec)
    requires Pairable(k) && Has(a, Type256(k))
    ensures Has(r, Type128(k))
    ensures 2 * |r.lanes| == |Lanes(a)|
    ensures r.lanes == Lanes(a)[|Lanes(a)| / 2..]
  {
    HalfShape(a, k);
    a.hi
  }

  /** set_low(a, low): a with its lower half of lanes replaced by low's lanes. */
  function SetLow(k: Kind, a: Vec, low: Vec): (r: Vec)
    requires Pairable(k) && Has(a, Type256(k)) && Has(low, Type128(k))
    ensures Has(r, Type256(k))
    ensures Lanes(r) == low.lanes + Lanes(a)[|Lanes(a)| / 2..]
  {
    HalfShape(a, k);
    a.(lo := low)
  }

  /** set_high(a, high): a with its upper half of lanes replaced by high's lanes. */
  function SetHigh(k: Kind, a: Vec, high: Vec): (r: Vec)
    requires Pairable(k) && Has(a, Type256(k)) && Has(high, Type128(k))
    ensures Has(r, Type256(k))
    ensures Lanes(r) == Lanes(a)[..|Lanes(a)| / 2] + high.lanes
  {
    HalfShape(a, k);
    a.(hi := high)
  }

  /** combine(a, b): a's lanes followed by b's. */
  function Combine(k: Kind, a: Vec, b: Vec): (r: Vec)
    requires Pairable(k) && Has(a, Type128(k)) && Has(b, Type128(k))
    ensures Has(r, Type256(k))
    ensures Lanes(r) == a.lanes + b.lanes
  {
    Node(a, b)
  }

  // ---------------------------------------------------------------------
  // The pairing laws, proved from the lane contracts above
  // ---------------------------------------------------------------------

  lemma GetLowCombine(k: Kind, a: Vec, b: Vec)
    requires Pairable(k) && Has(a, Type128(k)) && Has(b, Type128(k))
    ensures GetLow(k, Combine(k, a, b)) == a
    ensures GetHigh(k, Combine(k, a, b)) == b
  {
    var c := Combine(k, a, b);
    HalfShape(c, k);
    LanesDetermine(GetLow(k, c), a, Type128(k));
    LanesDetermine(GetHigh(k, c), b, Type128(k));
  }

  lemma CombineSplit(k: Kind, v: Vec)
    requires Pairable(k) && Has(v, Type256(k))
    ensures Combine(k, GetLow(k, v), GetHigh(k, v)) == v
  {
    var c := Combine(k, GetLow(k, v), GetHigh(k, v));
    assert Lanes(v) == Lanes(v)[..|Lanes(v)| / 2] + Lanes(v)[|Lanes(v)| / 2..];
    LanesDetermine(c, v, Type256(k));
  }

  /** set_low replaces only lo: get_low reads back the new half, get_high the old one. */
  lemma SetLowGet(k: Kind, a: Vec, low: Vec)
    requires Pairable(k) && Has(a, Type256(k)) && Has(low, Type128(k))
    ensures GetLow(k, SetLow(k, a, low)) == low
    ensures GetHigh(k, SetLow(k, a, low)) == GetHigh(k, a)
  {
    var r := SetLow(k, a, low);
    HalfShape(a, k);
    HalfShape(r, k);
    LanesDetermine(GetLow(k, r), low, Type128(k));
    LanesDetermine(GetHigh(k, r), GetHigh(k, a), Type128(k));
  }

  /** set_high replaces only hi: get_high reads back the new half, get_low the old one. */
  lemma SetHighGet(k: Kind, a: Vec, high: Vec)
    requires Pairable(k) && Has(a, Type256(k)) && Has(high, Type128(k))
    ensures GetHigh(k, SetHigh(k, a, high)) == high
    ensures GetLow(k, SetHigh(k, a, high)) == GetLow(k, a)
  {
    var r := SetHigh(k, a, high);
    HalfShape(a, k);
    HalfShape(r, k);
    LanesDetermine(GetHigh(k, r), high, Type128(k));
    LanesDetermine(GetLow(k, r), GetLow(k, a), Type128(k));
  }

  /** Writing back the half a value already has changes nothing. */
  lemma SetOwnHalves(k: Kind, v: Vec)
    requires Pairable(k) && Has(v, Type256(k))
    ensures SetLow(k, v, GetLow(k, v)) == v
    ensures SetHigh(k, v, GetHigh(k, v)) == v
  {
    assert Lanes(v) == Lanes(v)[..|Lanes(v)| / 2] + Lanes(v)[|Lanes(v)| / 2..];
    LanesDetermine(SetLow(k, v, GetLow(k, v)), v, Type256(k));
    LanesDetermine(SetHigh(k, v, GetHigh(k, v)), v, Type256(k));
  }

  /** The last set_low wins; set_low and set_high commute. */
  lemma SetLowTwice(k: Kind, a: Vec, x: Vec, y: Vec)
    requires Pairable(k) && Has(a, Type256(k)) && Has(x, Type128(k)) && Has(y, Type128(k))
    ensures SetLow(k, SetLow(k, a, x), y) == SetLow(k, a, y)
    ensures SetHigh(k, SetLow(k, a, x), y) == SetLow(k, SetHigh(k, a, y), x)
  {
    var b := SetLow(k, a, x);
    HalfShape(a, k);
    HalfShape(b, k);
    LanesDetermine(SetLow(k, b, y), SetLow(k, a, y), Type256(k));
    var c := SetHigh(k, a, y);
    HalfShape(c, k);
    LanesDetermine(SetHigh(k, b, y), SetLow(k, c, x), Type256(k));
  }
}
