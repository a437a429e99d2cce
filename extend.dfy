/**
 * Widening and narrowing of integer lanes: extend16x8, extend32x4 and
 * extend32x8 (zero extension for unsigned sources, sign extension for signed
 * ones) and narrow, each built from the MSA instructions the backend uses.
 * A widening keeps the low lanes of its source; a narrowing keeps the low
 * half of every lane of its two sources.
 */
module Extend {
  import opened Bytes
  import opened Vectors
  import opened Msa

  // ---------------------------------------------------------------------
  // The two widening idioms
  // ---------------------------------------------------------------------

  /** `ilvr(fill(0), x)`: every low element of x followed by a zero element. */
  function ZeroWiden(df: Df, x: seq<Byte>): (r: seq<Byte>)
    requires IsReg(x)
    ensures IsReg(r)
  {
    Ilvr(df, Fill(df, 0), x)
  }

  /** `ilvr(clt_s(x, fill(0)), x)`: every low element of x followed by its sign mask. */
  function SignWiden(df: Df, x: seq<Byte>): (r: seq<Byte>)
    requires IsReg(x)
    ensures IsReg(r)
  {
    Ilvr(df, CltS(df, x, Fill(df, 0)), x)
  }

  /** Element i of the wider format after zero widening reads unsigned as element i of df did. */
  lemma ZeroWidenElem(df: Df, x: seq<Byte>, i: nat)
    requires df != D && IsReg(x) && i < Count(Wider(df))
    ensures i < Count(df)
    ensures Unsigned(Element(Wider(df), ZeroWiden(df, x), i)) == Unsigned(Element(df, x, i))
  {
    var r := ZeroWiden(df, x);
    ElementPair(df, r, i);
    IlvrElem(df, Fill(df, 0), x, i);
    FillElem(df, 0, i);
    EncodeZero(Width(df));
    ZeroExtend(Element(df, x, i), Width(df));
  }

  /** Element i of the wider format after sign widening reads signed as element i of df did. */
  lemma SignWidenElem(df: Df, x: seq<Byte>, i: nat)
    requires df != D && IsReg(x) && i < Count(Wider(df))
    ensures i < Count(df)
    ensures Signed(Element(Wider(df), SignWiden(df, x), i)) == Signed(Element(df, x, i))
  {
    var m := CltS(df, x, Fill(df, 0));
    var r := Ilvr(df, m, x);
    ElementPair(df, r, i);
    IlvrElem(df, m, x, i);
    CltSElem(df, x, Fill(df, 0), i);
    ZeroSigned(df, i);
    var a := Element(df, x, i);
    assert Element(df, m, i) == Repeat(SignFill(a), Width(df));
    SignExtend(a, Width(df));
  }

  /** An element of fill(0) reads 0 in two's complement. */
  lemma ZeroSigned(df: Df, i: nat)
    requires i < Count(df)
    ensures Signed(Element(df, Fill(df, 0), i)) == 0
  {
    var w := Width(df);
    FillElem(df, 0, i);
    EncodeZero(w);
    UnsignedRepeat(0, w);
    SignedDef(Repeat(0, w));
  }

  /** Lane i of a 128-bit vector is element i of its image in the format of its kind. */
  lemma LaneElement(v: Vec, k: Kind, i: nat)
    requires Has(v, VType(k, 128)) && i < |v.lanes|
    ensures IsReg(Image(v)) && i < Count(Format(k))
    ensures Element(Format(k), Image(v), i) == Encode(v.lanes[i], Size(k))
    ensures LaneValue(k, Element(Format(k), Image(v), i)) == v.lanes[i]
  {
    Shape128(v, k);
    ImageLane(v, k, i);
    LaneValueEncode(k, v.lanes[i]);
  }

  /** Lane i of a register cast to kind k reads element i of the register. */
  lemma CastElement(k: Kind, r: seq<Byte>, i: nat)
    requires IsReg(r) && i < Count(Format(k))
    ensures Has(Cast(k, r), VType(k, 128))
    ensures i < |Cast(k, r).lanes|
    ensures Cast(k, r).lanes[i] == LaneValue(k, Element(Format(k), r, i))
  {
    ElemFits(Format(k), i);
    CastLane(k, r, i);
  }

  /** Lane i of a register cast to an unsigned or float kind: element i read unsigned. */
  lemma CastUnsigned(k: Kind, r: seq<Byte>, i: nat)
    requires !IsSigned(k) && IsReg(r) && i < Count(Format(k))
    ensures Has(Cast(k, r), VType(k, 128))
    ensures i < |Cast(k, r).lanes|
    ensures Cast(k, r).lanes[i] == Unsigned(Element(Format(k), r, i))
  {
    CastElement(k, r, i);
  }

  /** Lane i of a register cast to a signed kind: element i read in two's complement. */
  lemma CastSigned(k: Kind, r: seq<Byte>, i: nat)
    requires IsSigned(k) && IsReg(r) && i < Count(Format(k))
    ensures Has(Cast(k, r), VType(k, 128))
    ensures i < |Cast(k, r).lanes|
    ensures Cast(k, r).lanes[i] == Signed(Element(Format(k), r, i))
  {
    CastElement(k, r, i);
  }

  /** Lane i of an unsigned vector is element i of its image read unsigned. */
  lemma LaneUnsigned(v: Vec, k: Kind, i: nat)
    requires !IsSigned(k) && Has(v, VType(k, 128)) && i < |v.lanes|
    ensures IsReg(Image(v)) && i < Count(Format(k))
    ensures Unsigned(Element(Format(k), Image(v), i)) == v.lanes[i]
  {
    LaneElement(v, k, i);
  }

  /** Lane i of a signed vector is element i of its image read in two's complement. */
  lemma LaneSigned(v: Vec, k: Kind, i: nat)
    requires IsSigned(k) && Has(v, VType(k, 128)) && i < |v.lanes|
    ensures IsReg(Image(v)) && i < Count(Format(k))
    ensures Signed(Element(Format(k), Image(v), i)) == v.lanes[i]
  {
    LaneElement(v, k, i);
  }

  /** A 128-bit vector of kind k is one register: a lane per element of its format and a 16-byte image. */
  lemma Shape128(v: Vec, k: Kind)
    requires Has(v, VType(k, 128))
    ensures v.Leaf? && IsReg(Image(v))
    ensures |v.lanes| == Count(Format(k))
  {
    HasShape(v, VType(k, 128));
    CountWidth(Format(k));
    MulCancel(|v.lanes|, Count(Format(k)), Size(k));
  }

  /** Two lane sequences that agree lane by lane on the first n lanes. */
  lemma SamePrefix(a: seq<int>, b: seq<int>, n: nat)
    requires |a| == n <= |b|
    requires forall i | 0 <= i < n :: a[i] == b[i]
    ensures a == b[..n]
  {
  }

  // ---------------------------------------------------------------------
  // Zero extension
  // ---------------------------------------------------------------------

  /** extend16x8(u8x16): the low eight u8 lanes, zero-extended. */
  function Extend16x8U8(s: Vec): (r: Vec)
    requires Has(s, VType(U8, 128))
    ensures Has(r, VType(U16, 128))
  {
    Shape128(s, U8);
    CastHas(U16, ZeroWiden(B, Image(s)));
    Cast(U16, ZeroWiden(B, Image(s)))
  }

  lemma Extend16x8U8Lanes(s: Vec)
    requires Has(s, VType(U8, 128))
    ensures |s.lanes| == 16
    ensures Extend16x8U8(s).lanes == s.lanes[..8]
  {
    Shape128(s, U8);
    var r := Extend16x8U8(s);
    Shape128(r, U16);
    forall i | 0 <= i < 8
      ensures r.lanes[i] == s.lanes[i]
    {
      Extend16x8U8Lane(s, i);
    }
    SamePrefix(r.lanes, s.lanes, 8);
  }

  lemma Extend16x8U8Lane(s: Vec, i: nat)
    requires Has(s, VType(U8, 128)) && i < 8
    ensures i < |s.lanes| && i < |Extend16x8U8(s).lanes|
    ensures Extend16x8U8(s).lanes[i] == s.lanes[i]
  {
    Shape128(s, U8);
    var x := Image(s);
    CastUnsigned(U16, ZeroWiden(B, x), i);
    ZeroWidenElem(B, x, i);
    LaneUnsigned(s, U8, i);
  }

  /** extend32x4(u8x16): the low four u8 lanes, zero-extended twice. */
  function Extend32x4U8(s: Vec): (r: Vec)
    requires Has(s, VType(U8, 128))
    ensures Has(r, VType(U32, 128))
  {
    Shape128(s, U8);
    var temp16 := ZeroWiden(B, Image(s));
    CastHas(U32, ZeroWiden(H, temp16));
    Cast(U32, ZeroWiden(H, temp16))
  }

  lemma Extend32x4U8Lanes(s: Vec)
    requires Has(s, VType(U8, 128))
    ensures |s.lanes| == 16
    ensures Extend32x4U8(s).lanes == s.lanes[..4]
  {
    Shape128(s, U8);
    var r := Extend32x4U8(s);
    Shape128(r, U32);
    forall i | 0 <= i < 4
      ensures r.lanes[i] == s.lanes[i]
    {
      Extend32x4U8Lane(s, i);
    }
    SamePrefix(r.lanes, s.lanes, 4);
  }

  lemma Extend32x4U8Lane(s: Vec, i: nat)
    requires Has(s, VType(U8, 128)) && i < 4
    ensures i < |s.lanes| && i < |Extend32x4U8(s).lanes|
    ensures Extend32x4U8(s).lanes[i] == s.lanes[i]
  {
    Shape128(s, U8);
    var x := Image(s);
    CastUnsigned(U32, ZeroWiden(H, ZeroWiden(B, x)), i);
    ZeroWidenTwice(x, i);
    LaneUnsigned(s, U8, i);
  }

  /** Byte i, zero-widened to a halfword and then to a word, reads as the same unsigned value. */
  lemma ZeroWidenTwice(x: seq<Byte>, i: nat)
    requires IsReg(x) && i < 4
    ensures Unsigned(Element(W, ZeroWiden(H, ZeroWiden(B, x)), i)) == Unsigned(Element(B, x, i))
  {
    ZeroWidenElem(H, ZeroWiden(B, x), i);
    ZeroWidenElem(B, x, i);
  }

  /** extend32x4(u16x8): the low four u16 lanes, zero-extended. */
  function Extend32x4U16(s: Vec): (r: Vec)
    requires Has(s, VType(U16, 128))
    ensures Has(r, VType(U32, 128))
  {
    Shape128(s, U16);
    CastHas(U32, ZeroWiden(H, Image(s)));
    Cast(U32, ZeroWiden(H, Image(s)))
  }

  lemma Extend32x4U16Lanes(s: Vec)
    requires Has(s, VType(U16, 128))
    ensures |s.lanes| == 8
    ensures Extend32x4U16(s).lanes == s.lanes[..4]
  {
    Shape128(s, U16);
    var r := Extend32x4U16(s);
    Shape128(r, U32);
    forall i | 0 <= i < 4
      ensures r.lanes[i] == s.lanes[i]
    {
      Extend32x4U16Lane(s, i);
    }
    SamePrefix(r.lanes, s.lanes, 4);
  }

  lemma Extend32x4U16Lane(s: Vec, i: nat)
    requires Has(s, VType(U16, 128)) && i < 4
    ensures i < |s.lanes| && i < |Extend32x4U16(s).lanes|
    ensures Extend32x4U16(s).lanes[i] == s.lanes[i]
  {
    Shape128(s, U16);
    var x := Image(s);
    CastUnsigned(U32, ZeroWiden(H, x), i);
    ZeroWidenElem(H, x, i);
    LaneUnsigned(s, U16, i);
  }

  /** `ilvl_d(s, s)`: the high doubleword of s in both doublewords. */
  function HighToLow(s: seq<Byte>): (r: seq<Byte>)
    requires IsReg(s)
    ensures IsReg(r)
  {
    Ilvl(D, s, s)
  }

  /** Halfword j of ilvl_d(s, s), for j < 4, is halfword 4 + j of s. */
  lemma HighToLowElem(s: seq<Byte>, j: nat)
    requires IsReg(s) && j < 4
    ensures Element(H, HighToLow(s), j) == Element(H, s, 4 + j)
  {
    var r := HighToLow(s);
    IlvlElem(D, s, s, 0);
    HalfwordOfDouble(r, j);
    HalfwordOfDouble(s, j);
  }

  /** Halfwords j and 4 + j of a register, for j < 4, are halfword j of its low and of its high doubleword. */
  lemma HalfwordOfDouble(r: seq<Byte>, j: nat)
    requires IsReg(r) && j < 4
    ensures Element(H, r, j) == Element(D, r, 0)[2 * j..2 * j + 2]
    ensures Element(H, r, 4 + j) == Element(D, r, 1)[2 * j..2 * j + 2]
  {
    ElementSlice(D, r, 0);
    ElementSlice(D, r, 1);
    ElementSlice(H, r, j);
    ElementSlice(H, r, 4 + j);
    SubSlice(r, 0, 8, 2 * j, 2);
    SubSlice(r, 8, 16, 2 * j, 2);
  }

  /** A slice of a slice is a slice. */
  lemma SubSlice(bs: seq<Byte>, a: nat, b: nat, o: nat, w: nat)
    requires a + o + w <= b <= |bs|
    ensures bs[a..b][o..o + w] == bs[a + o..a + o + w]
  {
    var x, y := bs[a..b][o..o + w], bs[a + o..a + o + w];
    assert forall i | 0 <= i < w :: x[i] == y[i];
  }

  /** The 16-bit lanes of s moved down by ilvl_d(s, s): its high four lanes. */
  lemma HighToLowLanes(s: Vec, k: Kind)
    requires Has(s, VType(k, 128)) && Size(k) == 2
    ensures IsReg(Image(s)) && |s.lanes| == 8
    ensures Has(Cast(k, HighToLow(Image(s))), VType(k, 128))
    ensures Cast(k, HighToLow(Image(s))).lanes[..4] == s.lanes[4..]
  {
    Shape128(s, k);
    var h := Cast(k, HighToLow(Image(s)));
    CastHas(k, HighToLow(Image(s)));
    Shape128(h, k);
    forall j | 0 <= j < 4
      ensures h.lanes[j] == s.lanes[4 + j]
    {
      HighToLowLane(s, k, j);
    }
    SamePrefix(h.lanes[..4], s.lanes[4..], 4);
  }

  lemma HighToLowLane(s: Vec, k: Kind, j: nat)
    requires Has(s, VType(k, 128)) && Size(k) == 2 && j < 4
    ensures IsReg(Image(s)) && 4 + j < |s.lanes|
    ensures j < |Cast(k, HighToLow(Image(s))).lanes|
    ensures Cast(k, HighToLow(Image(s))).lanes[j] == s.lanes[4 + j]
  {
    Shape128(s, k);
    assert Format(k) == H;
    CastElement(k, HighToLow(Image(s)), j);
    HighToLowElem(Image(s), j);
    LaneElement(s, k, 4 + j);
  }

  /** extend32x8(u16x8): lo extends the low four lanes, hi the high four. */
  function Extend32x8U16(s: Vec): (r: Vec)
    requires Has(s, VType(U16, 128))
    ensures Has(r, VType(U32, 256))
  {
    Shape128(s, U16);
    CastHas(U16, HighToLow(Image(s)));
    Node(Extend32x4U16(s), Extend32x4U16(Cast(U16, HighToLow(Image(s)))))
  }

  lemma Extend32x8U16Lanes(s: Vec)
    requires Has(s, VType(U16, 128))
    ensures Lanes(Extend32x8U16(s)) == s.lanes
  {
    var r := Extend32x8U16(s);
    Extend32x8U16Lo(s);
    Extend32x8U16Hi(s);
    assert Lanes(r) == r.lo.lanes + r.hi.lanes;
    assert s.lanes == s.lanes[..4] + s.lanes[4..];
  }

  lemma Extend32x8U16Lo(s: Vec)
    requires Has(s, VType(U16, 128))
    ensures |s.lanes| == 8
    ensures Extend32x8U16(s).lo.lanes == s.lanes[..4]
  {
    Extend32x4U16Lanes(s);
  }

  lemma Extend32x8U16Hi(s: Vec)
    requires Has(s, VType(U16, 128))
    ensures |s.lanes| == 8
    ensures Extend32x8U16(s).hi.lanes == s.lanes[4..]
  {
    HighToLowLanes(s, U16);
    var h := Cast(U16, HighToLow(Image(s)));
    Extend32x4U16Lanes(h);
  }

  // ---------------------------------------------------------------------
  // Sign extension
  // ---------------------------------------------------------------------

  /** extend16x8(s8x16): the low eight s8 lanes, sign-extended. */
  function Extend16x8S8(s: Vec): (r: Vec)
    requires Has(s, VType(S8, 128))
    ensures Has(r, VType(S16, 128))
  {
    Shape128(s, S8);
    CastHas(S16, SignWiden(B, Image(s)));
    Cast(S16, SignWiden(B, Image(s)))
  }

  lemma Extend16x8S8Lanes(s: Vec)
    requires Has(s, VType(S8, 128))
    ensures |s.lanes| == 16
    ensures Extend16x8S8(s).lanes == s.lanes[..8]
  {
    Shape128(s, S8);
    var r := Extend16x8S8(s);
    Shape128(r, S16);
    forall i | 0 <= i < 8
      ensures r.lanes[i] == s.lanes[i]
    {
      Extend16x8S8Lane(s, i);
    }
    SamePrefix(r.lanes, s.lanes, 8);
  }

  lemma Extend16x8S8Lane(s: Vec, i: nat)
    requires Has(s, VType(S8, 128)) && i < 8
    ensures i < |s.lanes| && i < |Extend16x8S8(s).lanes|
    ensures Extend16x8S8(s).lanes[i] == s.lanes[i]
  {
    Shape128(s, S8);
    var x := Image(s);
    CastSigned(S16, SignWiden(B, x), i);
    SignWidenElem(B, x, i);
    LaneSigned(s, S8, i);
  }

  /**
   * extend32x4(s8x16) as written: the second step takes its halfword sign
   * masks from the source s instead of from the widened temp16, so the
   * upper half of word i is the sign of halfword i of s, that is of lane
   * 2i + 1 of s.
   */
  function Extend32x4S8AsWritten(s: Vec): (r: Vec)
    requires Has(s, VType(S8, 128))
    ensures Has(r, VType(S32, 128))
  {
    Shape128(s, S8);
    var temp16 := SignWiden(B, Image(s));
    var r := Ilvr(H, CltS(H, Image(s), Fill(H, 0)), temp16);
    CastHas(S32, r);
    Cast(S32, r)
  }

  /** Lane i of the as-written extend32x4(s8x16): lane i of s sign-extended to 16 bits, then given the sign of lane 2i + 1. */
  lemma Extend32x4S8AsWrittenLane(s: Vec, i: nat)
    requires Has(s, VType(S8, 128)) && i < 4
    ensures |s.lanes| == 16
    ensures |Extend32x4S8AsWritten(s).lanes| == 4
    ensures Extend32x4S8AsWritten(s).lanes[i]
         == s.lanes[i] + (if s.lanes[i] < 0 then 0x1_0000 else 0) - (if s.lanes[2 * i + 1] < 0 then 0x1_0000 else 0)
  {
    var lo, f := AsWrittenWord(s, i);
    assert Pow256(2) == 0x1_0000;
    SignedFill(lo, f, 2);
    UnsignedOfSigned(lo);
  }

  /** Word i of the as-written extend32x4(s8x16): halfword i of temp16, then the mask of lane 2i + 1. */
  lemma AsWrittenWord(s: Vec, i: nat) returns (lo: seq<Byte>, f: Byte)
    requires Has(s, VType(S8, 128)) && i < 4
    ensures |s.lanes| == 16 && |lo| == 2
    ensures f == if s.lanes[2 * i + 1] < 0 then 255 else 0
    ensures Signed(lo) == s.lanes[i]
    ensures |Extend32x4S8AsWritten(s).lanes| == 4
    ensures Extend32x4S8AsWritten(s).lanes[i] == Signed(lo + Repeat(f, 2))
  {
    Shape128(s, S8);
    lo := Element(H, SignWiden(B, Image(s)), i);
    f := MaskOfOddLane(s, i);
    WidenedLane(s, i);
    AsWrittenShape(s);
    AsWrittenCast(s, i);
  }

  /** The as-written extend32x4(s8x16) has four lanes. */
  lemma AsWrittenShape(s: Vec)
    requires Has(s, VType(S8, 128))
    ensures IsReg(Image(s))
    ensures Extend32x4S8AsWritten(s).Leaf? && |Extend32x4S8AsWritten(s).lanes| == 4
  {
    Shape128(s, S8);
    Shape128(Extend32x4S8AsWritten(s), S32);
  }

  /** Lane i of the as-written extend32x4(s8x16) reads halfword i of temp16 and halfword i of the masks as one word. */
  lemma AsWrittenCast(s: Vec, i: nat)
    requires Has(s, VType(S8, 128)) && i < 4
    requires IsReg(Image(s)) && Extend32x4S8AsWritten(s).Leaf? && |Extend32x4S8AsWritten(s).lanes| == 4
    ensures Extend32x4S8AsWritten(s).lanes[i]
         == Signed(Element(H, SignWiden(B, Image(s)), i) + Element(H, CltS(H, Image(s), Fill(H, 0)), i))
  {
    var x := Image(s);
    var t := SignWiden(B, x);
    var m := CltS(H, x, Fill(H, 0));
    var r := Ilvr(H, m, t);
    CastWord(r, i);
    AsWrittenHalves(m, t, i);
    assert Extend32x4S8AsWritten(s) == Cast(S32, r);
  }

  /** Lane i of a register read as s32x4 is word i read signed. */
  lemma CastWord(r: seq<Byte>, i: nat)
    requires IsReg(r) && i < 4
    ensures Has(Cast(S32, r), VType(S32, 128)) && i < |Cast(S32, r).lanes|
    ensures Cast(S32, r).lanes[i] == Signed(Element(W, r, i))
  {
    assert Format(S32) == W;
    CastSigned(S32, r, i);
  }

  /** Word i of ilvr_h(m, t): halfword i of t, then halfword i of m. */
  lemma AsWrittenHalves(m: seq<Byte>, t: seq<Byte>, i: nat)
    requires IsReg(m) && IsReg(t) && i < 4
    ensures Element(W, Ilvr(H, m, t), i) == Element(H, t, i) + Element(H, m, i)
  {
    IlvrElem(H, m, t, i);
    ElementPair(H, Ilvr(H, m, t), i);
  }

  /** Halfword i of clt_s_h(s, fill_h(0)) for an s8x16 s: all ones exactly when lane 2i + 1 of s is negative. */
  lemma MaskOfOddLane(s: Vec, i: nat) returns (f: Byte)
    requires Has(s, VType(S8, 128)) && i < 4
    ensures |s.lanes| == 16 && IsReg(Image(s))
    ensures f == if s.lanes[2 * i + 1] < 0 then 255 else 0
    ensures Element(H, CltS(H, Image(s), Fill(H, 0)), i) == Repeat(f, 2)
  {
    Shape128(s, S8);
    var x := Image(s);
    CltSElem(H, x, Fill(H, 0), i);
    ZeroSigned(H, i);
    OddLaneSign(s, i);
    f := if s.lanes[2 * i + 1] < 0 then 255 else 0;
  }

  /** Halfword i of an s8x16 is negative exactly when its lane 2i + 1, the high byte, is. */
  lemma OddLaneSign(s: Vec, i: nat)
    requires Has(s, VType(S8, 128)) && i < 4
    ensures |s.lanes| == 16 && IsReg(Image(s))
    ensures Signed(Element(H, Image(s), i)) < 0 <==> s.lanes[2 * i + 1] < 0
  {
    Shape128(s, S8);
    var x := Image(s);
    ElementPair(B, x, i);
    LaneSigned(s, S8, 2 * i + 1);
    var hw := Element(H, x, i);
    assert hw[1] == Element(B, x, 2 * i + 1)[0];
  }

  /** Halfword i of temp16 = ilvr_b(clt_s_b(s, 0), s): lane i of s in two's complement. */
  lemma WidenedLane(s: Vec, i: nat)
    requires Has(s, VType(S8, 128)) && i < 4
    ensures |s.lanes| == 16 && IsReg(Image(s))
    ensures Signed(Element(H, SignWiden(B, Image(s)), i)) == s.lanes[i]
  {
    Shape128(s, S8);
    SignWidenElem(B, Image(s), i);
    LaneSigned(s, S8, i);
  }

  /** The corrected extend32x4(s8x16): the halfword sign masks are taken from temp16. */
  function Extend32x4S8(s: Vec): (r: Vec)
    requires Has(s, VType(S8, 128))
    ensures Has(r, VType(S32, 128))
  {
    Shape128(s, S8);
    var temp16 := SignWiden(B, Image(s));
    CastHas(S32, SignWiden(H, temp16));
    Cast(S32, SignWiden(H, temp16))
  }

  lemma Extend32x4S8Lanes(s: Vec)
    requires Has(s, VType(S8, 128))
    ensures |s.lanes| == 16
    ensures Extend32x4S8(s).lanes == s.lanes[..4]
  {
    Shape128(s, S8);
    var r := Extend32x4S8(s);
    Shape128(r, S32);
    forall i | 0 <= i < 4
      ensures r.lanes[i] == s.lanes[i]
    {
      Extend32x4S8Lane(s, i);
    }
    SamePrefix(r.lanes, s.lanes, 4);
  }

  lemma Extend32x4S8Lane(s: Vec, i: nat)
    requires Has(s, VType(S8, 128)) && i < 4
    ensures i < |s.lanes| && i < |Extend32x4S8(s).lanes|
    ensures Extend32x4S8(s).lanes[i] == s.lanes[i]
  {
    Shape128(s, S8);
    var x := Image(s);
    CastSigned(S32, SignWiden(H, SignWiden(B, x)), i);
    SignWidenTwice(x, i);
    LaneSigned(s, S8, i);
  }

  /** Byte i, sign-widened to a halfword and then to a word, reads as the same signed value. */
  lemma SignWidenTwice(x: seq<Byte>, i: nat)
    requires IsReg(x) && i < 4
    ensures Signed(Element(W, SignWiden(H, SignWiden(B, x)), i)) == Signed(Element(B, x, i))
  {
    SignWidenElem(H, SignWiden(B, x), i);
    SignWidenElem(B, x, i);
  }

  /** An s8x16 whose lane 0 is -1 and the rest 0: the as-written extension yields 65535, not -1. */
  lemma Extend32x4S8Counterexample()
    ensures Has(Leaf(S8, [-1] + seq(15, _ => 0)), VType(S8, 128))
    ensures Extend32x4S8AsWritten(Leaf(S8, [-1] + seq(15, _ => 0))).lanes[0] == 65535
    ensures Extend32x4S8(Leaf(S8, [-1] + seq(15, _ => 0))).lanes[0] == -1
  {
    var s := Leaf(S8, [-1] + seq(15, _ => 0));
    assert Pow256(1) == 256;
    assert Has(s, VType(S8, 128));
    Extend32x4S8AsWrittenLane(s, 0);
    Extend32x4S8Lane(s, 0);
  }

  /** extend32x4(s16x8): the low four s16 lanes, sign-extended. */
  function Extend32x4S16(s: Vec): (r: Vec)
    requires Has(s, VType(S16, 128))
    ensures Has(r, VType(S32, 128))
  {
    Shape128(s, S16);
    CastHas(S32, SignWiden(H, Image(s)));
    Cast(S32, SignWiden(H, Image(s)))
  }

  lemma Extend32x4S16Lanes(s: Vec)
    requires Has(s, VType(S16, 128))
    ensures |s.lanes| == 8
    ensures Extend32x4S16(s).lanes == s.lanes[..4]
  {
    Shape128(s, S16);
    var r := Extend32x4S16(s);
    Shape128(r, S32);
    forall i | 0 <= i < 4
      ensures r.lanes[i] == s.lanes[i]
    {
      Extend32x4S16Lane(s, i);
    }
    SamePrefix(r.lanes, s.lanes, 4);
  }

  lemma Extend32x4S16Lane(s: Vec, i: nat)
    requires Has(s, VType(S16, 128)) && i < 4
    ensures i < |s.lanes| && i < |Extend32x4S16(s).lanes|
    ensures Extend32x4S16(s).lanes[i] == s.lanes[i]
  {
    Shape128(s, S16);
    var x := Image(s);
    CastSigned(S32, SignWiden(H, x), i);
    SignWidenElem(H, x, i);
    LaneSigned(s, S16, i);
  }

  /** extend32x8(s16x8): lo extends the low four lanes, hi the high four. */
  function Extend32x8S16(s: Vec): (r: Vec)
    requires Has(s, VType(S16, 128))
    ensures Has(r, VType(S32, 256))
  {
    Shape128(s, S16);
    CastHas(S16, HighToLow(Image(s)));
    Node(Extend32x4S16(s), Extend32x4S16(Cast(S16, HighToLow(Image(s)))))
  }

  lemma Extend32x8S16Lanes(s: Vec)
    requires Has(s, VType(S16, 128))
    ensures Lanes(Extend32x8S16(s)) == s.lanes
  {
    var r := Extend32x8S16(s);
    Extend32x8S16Lo(s);
    Extend32x8S16Hi(s);
    assert Lanes(r) == r.lo.lanes + r.hi.lanes;
    assert s.lanes == s.lanes[..4] + s.lanes[4..];
  }

  lemma Extend32x8S16Lo(s: Vec)
    requires Has(s, VType(S16, 128))
    ensures |s.lanes| == 8
    ensures Extend32x8S16(s).lo.lanes == s.lanes[..4]
  {
    Extend32x4S16Lanes(s);
  }

  lemma Extend32x8S16Hi(s: Vec)
    requires Has(s, VType(S16, 128))
    ensures |s.lanes| == 8
    ensures Extend32x8S16(s).hi.lanes == s.lanes[4..]
  {
    HighToLowLanes(s, S16);
    var h := Cast(S16, HighToLow(Image(s)));
    Extend32x4S16Lanes(h);
  }

  // ---------------------------------------------------------------------
  // Narrowing
  // ---------------------------------------------------------------------

  /** The source kinds narrow accepts: u16x8, u32x4, s16x8 and s32x4. */
  predicate Narrowable(k: Kind)
  {
    k == U16 || k == U32 || k == S16 || k == S32
  }

  /** The lane kind of narrow's result: half as wide, same signedness. */
  function Narrowed(k: Kind): (nk: Kind)
    requires Narrowable(k)
    ensures Size(k) == 2 * Size(nk) && IsSigned(nk) == IsSigned(k)
  {
    match k
    case U16 => U8
    case U32 => U16
    case S16 => S8
    case S32 => S16
  }

  /** The data format of narrow's vshf: .b for 16-bit sources, .h for 32-bit ones. */
  function NarrowDf(k: Kind): (df: Df)
    requires Narrowable(k)
    ensures Width(df) == Size(Narrowed(k))
  {
    if Size(k) == 2 then B else H
  }

  /** The control values 0, 2, 4, ..., 2n - 2. */
  function NarrowIndices(df: Df): (es: seq<int>)
    ensures |es| == Count(df)
  {
    seq(Count(df), j => 2 * j)
  }

  /** The control vector { 0, 2, 4, ..., 2n - 2 }: element j selects element 2j. */
  function NarrowControl(df: Df): (c: seq<Byte>)
    ensures IsReg(c)
  {
    FromElements(df, NarrowIndices(df))
  }

  /** x stored into a lane of kind k, lane by lane. */
  function WrapAll(k: Kind, ls: seq<int>): (r: seq<int>)
    ensures |r| == |ls|
    ensures forall i | 0 <= i < |ls| :: r[i] == Wrap(k, ls[i])
  {
    seq(|ls|, i requires 0 <= i < |ls| => Wrap(k, ls[i]))
  }

  /** vshf(control, ws, wt) cast to the narrowed kind. */
  function NarrowShuffle(k: Kind, ws: Vec, wt: Vec): (r: Vec)
    requires Narrowable(k) && Has(ws, VType(k, 128)) && Has(wt, VType(k, 128))
    ensures r.Leaf? && Has(r, VType(Narrowed(k), 128))
  {
    Shape128(ws, k);
    Shape128(wt, k);
    var df := NarrowDf(k);
    var r := Vshf(df, NarrowControl(df), Image(ws), Image(wt));
    CastHas(Narrowed(k), r);
    Cast(Narrowed(k), r)
  }

  /**
   * narrow(a, b) as written: vshf(control, a, b) with a as ws and b as wt.
   * Control indices below n select from wt, so b's lanes come first.
   */
  function NarrowAsWritten(k: Kind, a: Vec, b: Vec): (r: Vec)
    requires Narrowable(k) && Has(a, VType(k, 128)) && Has(b, VType(k, 128))
    ensures r.Leaf? && Has(r, VType(Narrowed(k), 128))
  {
    NarrowShuffle(k, a, b)
  }

  /** The corrected narrow(a, b): vshf(control, b, a), a's lanes first. */
  function Narrow(k: Kind, a: Vec, b: Vec): (r: Vec)
    requires Narrowable(k) && Has(a, VType(k, 128)) && Has(b, VType(k, 128))
    ensures r.Leaf? && Has(r, VType(Narrowed(k), 128))
  {
    NarrowShuffle(k, b, a)
  }

  /** The formats of narrow's source and result lanes. */
  lemma NarrowFormat(k: Kind)
    requires Narrowable(k)
    ensures NarrowDf(k) != D && Wider(NarrowDf(k)) == Format(k) && Format(Narrowed(k)) == NarrowDf(k)
  {
    match k
    case U16 =>
    case U32 =>
    case S16 =>
    case S32 =>
  }

  /** The low half of lane j of v, read as a narrowed lane, is lane j wrapped to the narrowed kind. */
  lemma LowHalf(v: Vec, k: Kind, j: nat)
    requires Narrowable(k) && Has(v, VType(k, 128)) && j < |v.lanes|
    ensures IsReg(Image(v)) && 2 * j < Count(NarrowDf(k))
    ensures LaneValue(Narrowed(k), Element(NarrowDf(k), Image(v), 2 * j)) == Wrap(Narrowed(k), v.lanes[j])
  {
    var nk, df := Narrowed(k), NarrowDf(k);
    var w := Size(nk);
    var x := v.lanes[j];
    NarrowFormat(k);
    LaneElement(v, k, j);
    ElementPair(df, Image(v), j);
    EncodeSplit(x, w, w);
    assert Element(df, Image(v), 2 * j) == Encode(x, w + w)[..w];
    LaneValueEncode(nk, x);
  }

  /** The control byte of element j of the narrow control vector is 2j, which selects slot 2j. */
  lemma NarrowControlByte(df: Df, j: nat)
    requires j < Count(df)
    ensures ControlByte(df, NarrowControl(df), j) == 2 * j
    ensures ControlByte(df, NarrowControl(df), j) < 64
    ensures VshfSlot(df, ControlByte(df, NarrowControl(df), j)) == 2 * j
  {
    var es := NarrowIndices(df);
    FromElementsAt(df, es, j);
    assert es[j] == 2 * j;
    EncodeLow(2 * j, Width(df));
    VshfSlotSmall(df, 2 * j);
    ModWindow(2 * j, 256);
  }

  /** The low half of the shuffle: lane j of wt, wrapped. */
  lemma NarrowShuffleLow(k: Kind, ws: Vec, wt: Vec, j: nat)
    requires Narrowable(k) && Has(ws, VType(k, 128)) && Has(wt, VType(k, 128))
    requires j < HalfCount(NarrowDf(k))
    ensures j < |wt.lanes| && j < |NarrowShuffle(k, ws, wt).lanes|
    ensures NarrowShuffle(k, ws, wt).lanes[j] == Wrap(Narrowed(k), wt.lanes[j])
  {
    var df := NarrowDf(k);
    NarrowCount(k, wt);
    NarrowShuffleCast(k, ws, wt, j);
    NarrowVshfLow(df, Image(ws), Image(wt), j);
    LowHalf(wt, k, j);
  }

  /** The high half of the shuffle: lane j = h + i is lane i of ws, wrapped. */
  lemma NarrowShuffleHigh(k: Kind, ws: Vec, wt: Vec, i: nat, j: nat)
    requires Narrowable(k) && Has(ws, VType(k, 128)) && Has(wt, VType(k, 128))
    requires i < HalfCount(NarrowDf(k)) && j == HalfCount(NarrowDf(k)) + i
    ensures i < |ws.lanes| && j < |NarrowShuffle(k, ws, wt).lanes|
    ensures NarrowShuffle(k, ws, wt).lanes[j] == Wrap(Narrowed(k), ws.lanes[i])
  {
    var df := NarrowDf(k);
    NarrowCount(k, ws);
    NarrowCount(k, wt);
    NarrowVshfHigh(df, Image(ws), Image(wt), j, 2 * i);
    NarrowShuffleCast(k, ws, wt, j);
    LowHalf(ws, k, i);
  }

  /** Lane j of the shuffle reads element j of the vshf result as a narrowed lane. */
  lemma NarrowShuffleCast(k: Kind, ws: Vec, wt: Vec, j: nat)
    requires Narrowable(k) && Has(ws, VType(k, 128)) && Has(wt, VType(k, 128))
    requires j < Count(NarrowDf(k))
    ensures IsReg(Image(ws)) && IsReg(Image(wt))
    ensures |NarrowShuffle(k, ws, wt).lanes| == Count(NarrowDf(k))
    ensures NarrowShuffle(k, ws, wt).lanes[j]
         == LaneValue(Narrowed(k), Element(NarrowDf(k), Vshf(NarrowDf(k), NarrowControl(NarrowDf(k)), Image(ws), Image(wt)), j))
  {
    var df, nk := NarrowDf(k), Narrowed(k);
    NarrowCount(k, ws);
    NarrowCount(k, wt);
    NarrowFormat(k);
    var r := Vshf(df, NarrowControl(df), Image(ws), Image(wt));
    assert NarrowShuffle(k, ws, wt) == Cast(nk, r);
    NarrowLength(k, Cast(nk, r));
    CastElement(nk, r, j);
  }

  /** Element j of vshf(control, ws, wt) in the low half is element 2j of wt. */
  lemma NarrowVshfLow(df: Df, ws: seq<Byte>, wt: seq<Byte>, j: nat)
    requires IsReg(ws) && IsReg(wt) && j < HalfCount(df)
    ensures Element(df, Vshf(df, NarrowControl(df), ws, wt), j) == Element(df, wt, 2 * j)
  {
    var c := NarrowControl(df);
    NarrowControlByte(df, j);
    VshfFromWt(df, c, ws, wt, j);
  }

  /** Element j of vshf(control, ws, wt) in the high half is element m = 2j - n of ws. */
  lemma NarrowVshfHigh(df: Df, ws: seq<Byte>, wt: seq<Byte>, j: nat, m: nat)
    requires IsReg(ws) && IsReg(wt) && HalfCount(df) <= j < Count(df) && m == 2 * j - Count(df)
    ensures m < Count(df)
    ensures Element(df, Vshf(df, NarrowControl(df), ws, wt), j) == Element(df, ws, m)
  {
    var c := NarrowControl(df);
    NarrowControlByte(df, j);
    VshfFromWs(df, c, ws, wt, j);
  }

  /** narrow's result has as many lanes as its vshf has elements. */
  lemma NarrowLength(k: Kind, r: Vec)
    requires Narrowable(k) && Has(r, VType(Narrowed(k), 128))
    ensures |r.lanes| == Count(NarrowDf(k))
  {
    Shape128(r, Narrowed(k));
    NarrowFormat(k);
  }

  /** narrow's vshf has twice as many elements as each source has lanes. */
  lemma NarrowCount(k: Kind, v: Vec)
    requires Narrowable(k) && Has(v, VType(k, 128))
    ensures Count(NarrowDf(k)) == 2 * |v.lanes|
    ensures IsReg(Image(v))
  {
    Shape128(v, k);
    NarrowFormat(k);
  }

  /** The first n = |a| elements of a + b are a. */
  lemma PrefixOf(x: seq<int>, a: seq<int>, b: seq<int>, n: nat)
    requires x == a + b && n == |a|
    ensures n <= |x| && x[..n] == a
  {
  }

  /** Wrapping lanes that already fit the kind changes nothing. */
  lemma WrapAllFits(k: Kind, ls: seq<int>)
    requires forall i | 0 <= i < |ls| :: InRange(k, ls[i])
    ensures WrapAll(k, ls) == ls
  {
  }

  /** vshf with the even-element control over (ws, wt): wt's lanes, then ws's, each wrapped. */
  lemma NarrowShuffleLanes(k: Kind, ws: Vec, wt: Vec)
    requires Narrowable(k) && Has(ws, VType(k, 128)) && Has(wt, VType(k, 128))
    ensures ws.Leaf? && wt.Leaf?
    ensures NarrowShuffle(k, ws, wt).lanes == WrapAll(Narrowed(k), wt.lanes) + WrapAll(Narrowed(k), ws.lanes)
  {
    NarrowShuffleLength(k, ws, wt);
    NarrowShuffleFront(k, ws, wt);
    NarrowShuffleBack(k, ws, wt);
    SplitAt(NarrowShuffle(k, ws, wt).lanes, |wt.lanes|);
  }

  /** Both sources have n/2 lanes and the shuffle has n. */
  lemma NarrowShuffleLength(k: Kind, ws: Vec, wt: Vec)
    requires Narrowable(k) && Has(ws, VType(k, 128)) && Has(wt, VType(k, 128))
    ensures ws.Leaf? && wt.Leaf?
    ensures |ws.lanes| == HalfCount(NarrowDf(k)) && |wt.lanes| == HalfCount(NarrowDf(k))
    ensures |NarrowShuffle(k, ws, wt).lanes| == |wt.lanes| + |ws.lanes|
  {
    NarrowCount(k, ws);
    NarrowCount(k, wt);
    NarrowLength(k, NarrowShuffle(k, ws, wt));
  }

  /** A sequence whose first |ls| elements are those of ls, wrapped, has WrapAll(k, ls) as its prefix. */
  lemma Prefix(x: seq<int>, ls: seq<int>, k: Kind)
    requires |ls| <= |x|
    requires forall j | 0 <= j < |ls| :: x[j] == Wrap(k, ls[j])
    ensures x[..|ls|] == WrapAll(k, ls)
  {
  }

  /** A sequence whose elements from n on are those of ls, wrapped, has WrapAll(k, ls) as its suffix from n. */
  lemma Suffix(x: seq<int>, ls: seq<int>, k: Kind, n: nat)
    requires n + |ls| == |x|
    requires forall i | 0 <= i < |ls| :: x[n + i] == Wrap(k, ls[i])
    ensures x[n..] == WrapAll(k, ls)
  {
    assert forall i | 0 <= i < |ls| :: x[n..][i] == x[n + i];
  }

  /** A sequence is its first n elements followed by the rest. */
  lemma SplitAt(x: seq<int>, n: nat)
    requires n <= |x|
    ensures x == x[..n] + x[n..]
  {
  }

  /** The first half of the shuffle is wt's lanes, wrapped. */
  lemma NarrowShuffleFront(k: Kind, ws: Vec, wt: Vec)
    requires Narrowable(k) && Has(ws, VType(k, 128)) && Has(wt, VType(k, 128))
    requires ws.Leaf? && wt.Leaf? && |wt.lanes| == HalfCount(NarrowDf(k))
    requires |NarrowShuffle(k, ws, wt).lanes| == |wt.lanes| + |ws.lanes|
    ensures NarrowShuffle(k, ws, wt).lanes[..|wt.lanes|] == WrapAll(Narrowed(k), wt.lanes)
  {
    var x, nk := NarrowShuffle(k, ws, wt).lanes, Narrowed(k);
    forall j | 0 <= j < |wt.lanes|
      ensures x[j] == Wrap(nk, wt.lanes[j])
    {
      NarrowShuffleLow(k, ws, wt, j);
    }
    Prefix(x, wt.lanes, nk);
  }

  /** The second half of the shuffle is ws's lanes, wrapped. */
  lemma NarrowShuffleBack(k: Kind, ws: Vec, wt: Vec)
    requires Narrowable(k) && Has(ws, VType(k, 128)) && Has(wt, VType(k, 128))
    requires ws.Leaf? && wt.Leaf? && |ws.lanes| == HalfCount(NarrowDf(k)) && |wt.lanes| == HalfCount(NarrowDf(k))
    requires |NarrowShuffle(k, ws, wt).lanes| == |wt.lanes| + |ws.lanes|
    ensures NarrowShuffle(k, ws, wt).lanes[|wt.lanes|..] == WrapAll(Narrowed(k), ws.lanes)
  {
    var x, nk, n := NarrowShuffle(k, ws, wt).lanes, Narrowed(k), |wt.lanes|;
    forall i | 0 <= i < |ws.lanes|
      ensures x[n + i] == Wrap(nk, ws.lanes[i])
    {
      NarrowShuffleHigh(k, ws, wt, i, n + i);
    }
    Suffix(x, ws.lanes, nk, n);
  }

  /** narrow(a, b) as written: b's lanes, then a's, each wrapped to the narrowed kind. */
  lemma NarrowAsWrittenLanes(k: Kind, a: Vec, b: Vec)
    requires Narrowable(k) && Has(a, VType(k, 128)) && Has(b, VType(k, 128))
    ensures a.Leaf? && b.Leaf?
    ensures NarrowAsWritten(k, a, b).lanes == WrapAll(Narrowed(k), b.lanes) + WrapAll(Narrowed(k), a.lanes)
  {
    NarrowShuffleLanes(k, a, b);
  }

  /** The corrected narrow(a, b): a's lanes, then b's, each wrapped to the narrowed kind. */
  lemma NarrowLanes(k: Kind, a: Vec, b: Vec)
    requires Narrowable(k) && Has(a, VType(k, 128)) && Has(b, VType(k, 128))
    ensures a.Leaf? && b.Leaf?
    ensures Narrow(k, a, b).lanes == WrapAll(Narrowed(k), a.lanes) + WrapAll(Narrowed(k), b.lanes)
  {
    NarrowShuffleLanes(k, b, a);
  }

  /** a = all ones, b = all zeros: the as-written narrow puts b's zeros in lane 0. */
  lemma NarrowOrderCounterexample()
    ensures Has(Leaf(U16, seq(8, _ => 1)), VType(U16, 128))
    ensures Has(Leaf(U16, seq(8, _ => 0)), VType(U16, 128))
    ensures NarrowAsWritten(U16, Leaf(U16, seq(8, _ => 1)), Leaf(U16, seq(8, _ => 0))).lanes[0] == 0
    ensures Narrow(U16, Leaf(U16, seq(8, _ => 1)), Leaf(U16, seq(8, _ => 0))).lanes[0] == 1
  {
    var a, b := Leaf(U16, seq(8, _ => 1)), Leaf(U16, seq(8, _ => 0));
    assert Has(a, VType(U16, 128));
    assert Has(b, VType(U16, 128));
    NarrowShuffleLow(U16, a, b, 0);
    NarrowShuffleLow(U16, b, a, 0);
    assert a.lanes[0] == 1 && b.lanes[0] == 0;
  }

  /** Narrowing lanes that fit and widening again gives them back: extend16x8(narrow(a, b)) == a. */
  lemma NarrowExtendU16(a: Vec, b: Vec)
    requires Has(a, VType(U16, 128)) && Has(b, VType(U16, 128))
    requires forall i | 0 <= i < |a.lanes| :: InRange(U8, a.lanes[i])
    ensures Extend16x8U8(Narrow(U16, a, b)) == a
  {
    var r := Extend16x8U8(Narrow(U16, a, b));
    NarrowPrefix(U16, a, b);
    Extend16x8U8Lanes(Narrow(U16, a, b));
    LanesDetermine(r, a, VType(U16, 128));
  }

  /** The signed counterpart: extend16x8(narrow(a, b)) == a when a's lanes fit in s8. */
  lemma NarrowExtendS16(a: Vec, b: Vec)
    requires Has(a, VType(S16, 128)) && Has(b, VType(S16, 128))
    requires forall i | 0 <= i < |a.lanes| :: InRange(S8, a.lanes[i])
    ensures Extend16x8S8(Narrow(S16, a, b)) == a
  {
    var r := Extend16x8S8(Narrow(S16, a, b));
    NarrowPrefix(S16, a, b);
    Extend16x8S8Lanes(Narrow(S16, a, b));
    LanesDetermine(r, a, VType(S16, 128));
  }

  /** As written, extend16x8(narrow(a, b)) gives b back, not a, when b's lanes fit in u8. */
  lemma NarrowAsWrittenExtendU16(a: Vec, b: Vec)
    requires Has(a, VType(U16, 128)) && Has(b, VType(U16, 128))
    requires forall i | 0 <= i < |b.lanes| :: InRange(U8, b.lanes[i])
    ensures Extend16x8U8(NarrowAsWritten(U16, a, b)) == b
  {
    var r := Extend16x8U8(NarrowAsWritten(U16, a, b));
    NarrowAsWrittenPrefix(U16, a, b);
    Extend16x8U8Lanes(NarrowAsWritten(U16, a, b));
    LanesDetermine(r, b, VType(U16, 128));
  }

  /** The signed counterpart: as written, extend16x8(narrow(a, b)) == b when b's lanes fit in s8. */
  lemma NarrowAsWrittenExtendS16(a: Vec, b: Vec)
    requires Has(a, VType(S16, 128)) && Has(b, VType(S16, 128))
    requires forall i | 0 <= i < |b.lanes| :: InRange(S8, b.lanes[i])
    ensures Extend16x8S8(NarrowAsWritten(S16, a, b)) == b
  {
    var r := Extend16x8S8(NarrowAsWritten(S16, a, b));
    NarrowAsWrittenPrefix(S16, a, b);
    Extend16x8S8Lanes(NarrowAsWritten(S16, a, b));
    LanesDetermine(r, b, VType(S16, 128));
  }

  /** As written, the first eight lanes of narrow(a, b) are b's, when b's lanes fit the narrowed kind. */
  lemma NarrowAsWrittenPrefix(k: Kind, a: Vec, b: Vec)
    requires Narrowable(k) && Size(k) == 2 && Has(a, VType(k, 128)) && Has(b, VType(k, 128))
    requires forall i | 0 <= i < |b.lanes| :: InRange(Narrowed(k), b.lanes[i])
    ensures |b.lanes| == 8 && |NarrowAsWritten(k, a, b).lanes| == 16
    ensures NarrowAsWritten(k, a, b).lanes[..8] == b.lanes
  {
    var nk := Narrowed(k);
    Shape128(a, k);
    Shape128(b, k);
    assert Format(k) == H;
    NarrowAsWrittenLanes(k, a, b);
    WrapAllFits(nk, b.lanes);
    PrefixOf(NarrowAsWritten(k, a, b).lanes, b.lanes, WrapAll(nk, a.lanes), 8);
  }

  /** The first eight lanes of narrow(a, b) are a's, when a's lanes fit the narrowed kind. */
  lemma NarrowPrefix(k: Kind, a: Vec, b: Vec)
    requires Narrowable(k) && Size(k) == 2 && Has(a, VType(k, 128)) && Has(b, VType(k, 128))
    requires forall i | 0 <= i < |a.lanes| :: InRange(Narrowed(k), a.lanes[i])
    ensures |a.lanes| == 8 && |Narrow(k, a, b).lanes| == 16
    ensures Narrow(k, a, b).lanes[..8] == a.lanes
  {
    var nk := Narrowed(k);
    Shape128(a, k);
    Shape128(b, k);
    assert Format(k) == H;
    NarrowLanes(k, a, b);
    WrapAllFits(nk, a.lanes);
    PrefixOf(Narrow(k, a, b).lanes, a.lanes, WrapAll(nk, b.lanes), 8);
  }

}
