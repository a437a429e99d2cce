/**
 * The MSA (MIPS SIMD Architecture) instructions the conversion layer is built
 * from, on 128-bit registers given as their 16-byte little-endian images.
 * Each instruction is stated as the MSA instruction set manual states it:
 * element by element, for a data format df (byte, halfword, word,
 * doubleword), over the element values of its operands.
 */
module Msa {
  import opened Bytes
  import opened Vectors

  /** Data formats: .b, .h, .w and .d. */
  datatype Df = B | H | W | D

  /** The unsigned element kind of a data format. */
  function Elt(df: Df): (k: Kind)
  {
    match df
    case B => U8
    case H => U16
    case W => U32
    case D => U64
  }

  /** The signed element kind of a data format, for the signed comparisons. */
  function SignedElt(df: Df): (k: Kind)
  {
    match df
    case B => S8
    case H => S16
    case W => S32
    case D => S64
  }

  /** Bytes per element. */
  function Width(df: Df): (w: nat)
    ensures 1 <= w <= 8
  {
    Size(Elt(df))
  }

  /** Elements per 128-bit register. */
  function Count(df: Df): (n: nat)
  {
    match df
    case B => 16
    case H => 8
    case W => 4
    case D => 2
  }

  /** The data format whose elements are as wide as lanes of kind k. */
  function Format(k: Kind): (df: Df)
    ensures Width(df) == Size(k)
  {
    match k
    case S8 | U8 => B
    case S16 | U16 => H
    case S32 | U32 | F32 => W
    case S64 | U64 | F64 => D
  }

  /** Elements per 64-bit half of a register: where ILVL starts reading. */
  function HalfCount(df: Df): (n: nat)
    ensures 2 * n == Count(df)
  {
    match df
    case B => 8
    case H => 4
    case W => 2
    case D => 1
  }

  /** The format twice as wide: two adjacent elements of df make one of Wider(df). */
  function Wider(df: Df): (wd: Df)
    requires df != D
    ensures Width(wd) == 2 * Width(df) && 2 * Count(wd) == Count(df)
  {
    match df
    case B => H
    case H => W
    case W => D
  }

  lemma CountWidth(df: Df)
    ensures Count(df) * Width(df) == 16
    ensures Size(SignedElt(df)) == Width(df)
    ensures Count(df) % 2 == 0
    ensures Pow256(Width(df)) <= 0x1_0000_0000_0000_0000
  {
  }

  /** Element e of a register lies within its 16 bytes. */
  lemma ElemFits(df: Df, e: nat)
    requires e < Count(df)
    ensures e * Width(df) + Width(df) <= 16
  {
    match df
    case B =>
    case H =>
    case W =>
    case D =>
  }

  /** A register image. */
  predicate IsReg(r: seq<Byte>)
  {
    |r| == 16
  }

  /** The element values of register r in format df (unsigned). */
  function Elements(df: Df, r: seq<Byte>): (es: seq<int>)
  {
    DecodeLanes(Elt(df), r)
  }

  /** The register whose elements in format df have the values es. */
  function FromElements(df: Df, es: seq<int>): (r: seq<Byte>)
    ensures |es| == Count(df) ==> IsReg(r)
  {
    EncodeLanesLength(Elt(df), es);
    CountWidth(df);
    EncodeLanes(Elt(df), es)
  }

  lemma ElementsShape(df: Df, r: seq<Byte>)
    requires IsReg(r)
    ensures |Elements(df, r)| == Count(df)
    ensures |DecodeLanes(SignedElt(df), r)| == Count(df)
  {
    CountWidth(df);
    DecodeLanesLength(Elt(df), r, Count(df));
    DecodeLanesLength(SignedElt(df), r, Count(df));
  }

  /** The bytes of element e of register r in format df. */
  function Element(df: Df, r: seq<Byte>, e: nat): (x: seq<Byte>)
    requires IsReg(r) && e < Count(df)
    ensures |x| == Width(df)
  {
    ElemFits(df, e);
    Elem(r, Width(df), e)
  }

  /** Element e occupies bytes e*w .. e*w + w of the register. */
  lemma ElementSlice(df: Df, r: seq<Byte>, e: nat)
    requires IsReg(r) && e < Count(df)
    ensures e * Width(df) + Width(df) <= 16
    ensures Element(df, r, e) == r[e * Width(df) .. e * Width(df) + Width(df)]
  {
    ElemFits(df, e);
    ElemSlice(r, Width(df), e);
  }

  /** Element i of the wider format is elements 2i and 2i+1 side by side. */
  lemma ElementPair(df: Df, r: seq<Byte>, i: nat)
    requires df != D && IsReg(r) && i < Count(Wider(df))
    ensures 2 * i + 1 < Count(df)
    ensures Element(Wider(df), r, i) == Element(df, r, 2 * i) + Element(df, r, 2 * i + 1)
  {
    match df
    case B => ElemPair(r, 1, i);
    case H => ElemPair(r, 2, i);
    case W => ElemPair(r, 4, i);
  }

  /** The value of element e is the unsigned reading of its bytes. */
  lemma UnsignedElement(df: Df, r: seq<Byte>, e: nat)
    requires IsReg(r) && e < Count(df)
    ensures e < |Elements(df, r)|
    ensures Encode(Elements(df, r)[e], Width(df)) == Element(df, r, e)
  {
    ElemFits(df, e);
    DecodeLanesAt(Elt(df), r, e);
    EncodeLaneValue(Elt(df), Element(df, r, e));
  }

  /** The signed value of element e is the two's complement reading of its bytes. */
  lemma SignedElement(df: Df, r: seq<Byte>, e: nat)
    requires IsReg(r) && e < Count(df)
    ensures e < |DecodeLanes(SignedElt(df), r)|
    ensures DecodeLanes(SignedElt(df), r)[e] == Signed(Element(df, r, e))
  {
    ElemFits(df, e);
    SignedWidth(df);
    DecodeLanesAt(SignedElt(df), r, e);
  }

  lemma SignedWidth(df: Df)
    ensures Size(SignedElt(df)) == Width(df) && IsSigned(SignedElt(df))
  {
    match df
    case B =>
    case H =>
    case W =>
    case D =>
  }

  /** A register built from Count(df) element values holds the encoding of value e as element e. */
  lemma FromElementsAt(df: Df, es: seq<int>, e: nat)
    requires |es| == Count(df) && e < Count(df)
    ensures IsReg(FromElements(df, es))
    ensures Element(df, FromElements(df, es), e) == Encode(es[e], Width(df))
  {
    CountWidth(df);
    EncodeLanesAt(Elt(df), es, e);
  }

  /** A built register whose value e is element k's value of r holds r's element k as element e. */
  lemma PickElement(df: Df, es: seq<int>, r: seq<Byte>, e: nat, k: nat)
    requires IsReg(r) && |es| == Count(df) && e < Count(df) && k < Count(df)
    requires k < |Elements(df, r)| && es[e] == Elements(df, r)[k]
    ensures IsReg(FromElements(df, es))
    ensures Element(df, FromElements(df, es), e) == Element(df, r, k)
  {
    FromElementsAt(df, es, e);
    UnsignedElement(df, r, k);
  }

  /** All ones or all zeros, as an element value and as its bytes. */
  lemma MaskEncoding(w: nat, b: bool)
    ensures Encode(if b then Pow256(w) - 1 else 0, w) == Repeat(if b then 255 else 0, w)
  {
    if b {
      UnsignedRepeat(255, w);
      EncodeUnsigned(Repeat(255, w));
    } else {
      EncodeZero(w);
    }
  }

  // ---------------------------------------------------------------------
  // FILL.df wd, rs: every element of wd is set to the GPR value rs.
  // ---------------------------------------------------------------------

  function Fill(df: Df, x: int): (r: seq<Byte>)
    ensures IsReg(r)
  {
    CountWidth(df);
    FromElements(df, seq(Count(df), _ => Wrap(Elt(df), x)))
  }

  lemma FillElem(df: Df, x: int, e: nat)
    requires e < Count(df)
    ensures Element(df, Fill(df, x), e) == Encode(x, Width(df))
  {
    var es := seq(Count(df), _ => Wrap(Elt(df), x));
    FromElementsAt(df, es, e);
    assert es[e] == Wrap(Elt(df), x);
    CongruentMod(x, es[e], Pow256(Width(df)));
    EncodeCongruent(es[e], x, Width(df));
  }

  // ---------------------------------------------------------------------
  // ILVR.df wd, ws, wt: the right (low) halves of ws and wt interleaved,
  // wt's element i to wd's element 2i and ws's element i to element 2i+1.
  // ---------------------------------------------------------------------

  /** ILVR's element values: wt's element i at 2i, ws's element i at 2i+1. */
  function IlvrElements(df: Df, s: seq<int>, t: seq<int>): (es: seq<int>)
    requires |s| == Count(df) && |t| == Count(df)
    ensures |es| == Count(df)
  {
    seq(Count(df), e requires 0 <= e < Count(df) =>
      if e % 2 == 0 then t[e / 2] else s[e / 2])
  }

  lemma IlvrElementsAt(df: Df, s: seq<int>, t: seq<int>, i: nat)
    requires |s| == Count(df) && |t| == Count(df) && 2 * i + 1 < Count(df)
    ensures IlvrElements(df, s, t)[2 * i] == t[i]
    ensures IlvrElements(df, s, t)[2 * i + 1] == s[i]
  {
    Halves(i);
  }

  function Ilvr(df: Df, ws: seq<Byte>, wt: seq<Byte>): (r: seq<Byte>)
    requires IsReg(ws) && IsReg(wt)
    ensures IsReg(r)
  {
    ElementsShape(df, ws);
    ElementsShape(df, wt);
    FromElements(df, IlvrElements(df, Elements(df, ws), Elements(df, wt)))
  }

  lemma IlvrElem(df: Df, ws: seq<Byte>, wt: seq<Byte>, i: nat)
    requires IsReg(ws) && IsReg(wt) && 2 * i + 1 < Count(df)
    ensures Element(df, Ilvr(df, ws, wt), 2 * i) == Element(df, wt, i)
    ensures Element(df, Ilvr(df, ws, wt), 2 * i + 1) == Element(df, ws, i)
  {
    IlvrEven(df, ws, wt, i);
    IlvrOdd(df, ws, wt, i);
  }

  lemma IlvrEven(df: Df, ws: seq<Byte>, wt: seq<Byte>, i: nat)
    requires IsReg(ws) && IsReg(wt) && 2 * i + 1 < Count(df)
    ensures Element(df, Ilvr(df, ws, wt), 2 * i) == Element(df, wt, i)
  {
    ElementsShape(df, ws);
    ElementsShape(df, wt);
    var s, t := Elements(df, ws), Elements(df, wt);
    IlvrElementsAt(df, s, t, i);
    PickElement(df, IlvrElements(df, s, t), wt, 2 * i, i);
  }

  lemma IlvrOdd(df: Df, ws: seq<Byte>, wt: seq<Byte>, i: nat)
    requires IsReg(ws) && IsReg(wt) && 2 * i + 1 < Count(df)
    ensures Element(df, Ilvr(df, ws, wt), 2 * i + 1) == Element(df, ws, i)
  {
    ElementsShape(df, ws);
    ElementsShape(df, wt);
    var s, t := Elements(df, ws), Elements(df, wt);
    IlvrElementsAt(df, s, t, i);
    PickElement(df, IlvrElements(df, s, t), ws, 2 * i + 1, i);
  }

  // ---------------------------------------------------------------------
  // ILVL.df wd, ws, wt: the left (high) halves of ws and wt interleaved,
  // wt's element n/2+i to wd's element 2i and ws's to element 2i+1.
  // ---------------------------------------------------------------------

  /** ILVL's element values: wt's element n/2+i at 2i, ws's element n/2+i at 2i+1. */
  function IlvlElements(df: Df, s: seq<int>, t: seq<int>): (es: seq<int>)
    requires |s| == Count(df) && |t| == Count(df)
    ensures |es| == Count(df)
  {
    seq(Count(df), e requires 0 <= e < Count(df) =>
      if e % 2 == 0 then t[HalfCount(df) + e / 2] else s[HalfCount(df) + e / 2])
  }

  lemma IlvlElementsAt(df: Df, s: seq<int>, t: seq<int>, i: nat)
    requires |s| == Count(df) && |t| == Count(df) && 2 * i + 1 < Count(df)
    ensures HalfCount(df) + i < Count(df)
    ensures IlvlElements(df, s, t)[2 * i] == t[HalfCount(df) + i]
    ensures IlvlElements(df, s, t)[2 * i + 1] == s[HalfCount(df) + i]
  {
    Halves(i);
  }

  function Ilvl(df: Df, ws: seq<Byte>, wt: seq<Byte>): (r: seq<Byte>)
    requires IsReg(ws) && IsReg(wt)
    ensures IsReg(r)
  {
    ElementsShape(df, ws);
    ElementsShape(df, wt);
    FromElements(df, IlvlElements(df, Elements(df, ws), Elements(df, wt)))
  }

  lemma IlvlElem(df: Df, ws: seq<Byte>, wt: seq<Byte>, i: nat)
    requires IsReg(ws) && IsReg(wt) && 2 * i + 1 < Count(df)
    ensures HalfCount(df) + i < Count(df)
    ensures Element(df, Ilvl(df, ws, wt), 2 * i) == Element(df, wt, HalfCount(df) + i)
    ensures Element(df, Ilvl(df, ws, wt), 2 * i + 1) == Element(df, ws, HalfCount(df) + i)
  {
    IlvlEven(df, ws, wt, i);
    IlvlOdd(df, ws, wt, i);
  }

  lemma IlvlEven(df: Df, ws: seq<Byte>, wt: seq<Byte>, i: nat)
    requires IsReg(ws) && IsReg(wt) && 2 * i + 1 < Count(df)
    ensures HalfCount(df) + i < Count(df)
    ensures Element(df, Ilvl(df, ws, wt), 2 * i) == Element(df, wt, HalfCount(df) + i)
  {
    ElementsShape(df, ws);
    ElementsShape(df, wt);
    var s, t := Elements(df, ws), Elements(df, wt);
    IlvlElementsAt(df, s, t, i);
    PickElement(df, IlvlElements(df, s, t), wt, 2 * i, HalfCount(df) + i);
  }

  lemma IlvlOdd(df: Df, ws: seq<Byte>, wt: seq<Byte>, i: nat)
    requires IsReg(ws) && IsReg(wt) && 2 * i + 1 < Count(df)
    ensures HalfCount(df) + i < Count(df)
    ensures Element(df, Ilvl(df, ws, wt), 2 * i + 1) == Element(df, ws, HalfCount(df) + i)
  {
    ElementsShape(df, ws);
    ElementsShape(df, wt);
    var s, t := Elements(df, ws), Elements(df, wt);
    IlvlElementsAt(df, s, t, i);
    PickElement(df, IlvlElements(df, s, t), ws, 2 * i + 1, HalfCount(df) + i);
  }

  /** Element 2i of an interleaving comes from the second operand's element i, element 2i+1 from the first's. */
  lemma Halves(i: nat)
    ensures (2 * i) % 2 == 0 && (2 * i) / 2 == i
    ensures (2 * i + 1) % 2 == 1 && (2 * i + 1) / 2 == i
  {
  }

  // ---------------------------------------------------------------------
  // CLT_S.df wd, ws, wt: element i of wd is all ones when element i of ws
  // is less than element i of wt as signed values, and zero otherwise.
  // ---------------------------------------------------------------------

  /** CLT_S's element values: all ones where s is below t, zero elsewhere. */
  function CltSElements(df: Df, s: seq<int>, t: seq<int>): (es: seq<int>)
    requires |s| == Count(df) && |t| == Count(df)
    ensures |es| == Count(df)
  {
    seq(Count(df), e requires 0 <= e < Count(df) =>
      if s[e] < t[e] then Pow256(Width(df)) - 1 else 0)
  }

  function CltS(df: Df, ws: seq<Byte>, wt: seq<Byte>): (r: seq<Byte>)
    requires IsReg(ws) && IsReg(wt)
    ensures IsReg(r)
  {
    ElementsShape(df, ws);
    ElementsShape(df, wt);
    FromElements(df, CltSElements(df, DecodeLanes(SignedElt(df), ws), DecodeLanes(SignedElt(df), wt)))
  }

  lemma CltSElem(df: Df, ws: seq<Byte>, wt: seq<Byte>, e: nat)
    requires IsReg(ws) && IsReg(wt) && e < Count(df)
    ensures Element(df, CltS(df, ws, wt), e)
         == Repeat(if Signed(Element(df, ws, e)) < Signed(Element(df, wt, e)) then 255 else 0, Width(df))
  {
    ElementsShape(df, ws);
    ElementsShape(df, wt);
    var s, t := DecodeLanes(SignedElt(df), ws), DecodeLanes(SignedElt(df), wt);
    var es := CltSElements(df, s, t);
    FromElementsAt(df, es, e);
    SignedElement(df, ws, e);
    SignedElement(df, wt, e);
    assert es[e] == if s[e] < t[e] then Pow256(Width(df)) - 1 else 0;
    CompareMask(Element(df, CltS(df, ws, wt), e), es[e], s[e], t[e], Element(df, ws, e), Element(df, wt, e), Width(df));
  }

  /** The bytes of a comparison mask, once its operands are read as signed values. */
  lemma CompareMask(x: seq<Byte>, v: int, a: int, b: int, sa: seq<Byte>, sb: seq<Byte>, w: nat)
    requires x == Encode(v, w) && v == if a < b then Pow256(w) - 1 else 0
    requires a == Signed(sa) && b == Signed(sb)
    ensures x == Repeat(if Signed(sa) < Signed(sb) then 255 else 0, w)
  {
    MaskEncoding(w, a < b);
  }

  // ---------------------------------------------------------------------
  // VSHF.df wd, ws, wt: element i of wd is replaced by the element of the
  // concatenation {ws, wt} that its own low six bits select, modulo 2n:
  // indices below n take wt's element, the others ws's element at index - n;
  // when bit 6 or bit 7 of the control element is set, the element is zero.
  // ---------------------------------------------------------------------

  /** The index a control value selects in {ws, wt}: the value modulo 2n. */
  function VshfSlot(df: Df, c: int): (k: nat)
    ensures k < 2 * Count(df)
  {
    match df
    case B => c % 32
    case H => c % 16
    case W => c % 8
    case D => c % 4
  }

  /** A control value below 2n selects index itself. */
  lemma VshfSlotSmall(df: Df, c: int)
    requires 0 <= c < 2 * Count(df)
    ensures c < 64 && VshfSlot(df, c) == c
  {
    match df
    case B =>
    case H =>
    case W =>
    case D =>
  }

  /** VSHF's element values: element i picks by the low byte of control element c[i]. */
  function VshfElements(df: Df, c: seq<int>, s: seq<int>, t: seq<int>): (es: seq<int>)
    requires |c| == Count(df) && |s| == Count(df) && |t| == Count(df)
    ensures |es| == Count(df)
  {
    var n := Count(df);
    seq(n, i requires 0 <= i < n =>
      var low := c[i] % 256;
      if low >= 64 then 0
      else
        var k := VshfSlot(df, low);
        if k < n then t[k] else s[k - n])
  }

  function Vshf(df: Df, wd: seq<Byte>, ws: seq<Byte>, wt: seq<Byte>): (r: seq<Byte>)
    requires IsReg(wd) && IsReg(ws) && IsReg(wt)
    ensures IsReg(r)
  {
    ElementsShape(df, wd);
    ElementsShape(df, ws);
    ElementsShape(df, wt);
    FromElements(df, VshfElements(df, Elements(df, wd), Elements(df, ws), Elements(df, wt)))
  }

  /** The control byte of element i: the low byte of VSHF's control element. */
  function ControlByte(df: Df, wd: seq<Byte>, i: nat): Byte
    requires IsReg(wd) && i < Count(df)
  {
    Element(df, wd, i)[0]
  }

  /** The control byte is the control element's value modulo 256. */
  lemma ControlValue(df: Df, wd: seq<Byte>, i: nat)
    requires IsReg(wd) && i < Count(df)
    ensures i < |Elements(df, wd)|
    ensures ControlByte(df, wd, i) == Elements(df, wd)[i] % 256
  {
    UnsignedElement(df, wd, i);
    EncodeLow(Elements(df, wd)[i], Width(df));
  }

  lemma VshfElem(df: Df, wd: seq<Byte>, ws: seq<Byte>, wt: seq<Byte>, i: nat)
    requires IsReg(wd) && IsReg(ws) && IsReg(wt) && i < Count(df)
    ensures ControlByte(df, wd, i) >= 64 ==> Element(df, Vshf(df, wd, ws, wt), i) == Repeat(0, Width(df))
    ensures ControlByte(df, wd, i) < 64 && VshfSlot(df, ControlByte(df, wd, i)) < Count(df) ==>
            Element(df, Vshf(df, wd, ws, wt), i) == Element(df, wt, VshfSlot(df, ControlByte(df, wd, i)))
    ensures ControlByte(df, wd, i) < 64 && VshfSlot(df, ControlByte(df, wd, i)) >= Count(df) ==>
            Element(df, Vshf(df, wd, ws, wt), i) == Element(df, ws, VshfSlot(df, ControlByte(df, wd, i)) - Count(df))
  {
    var c := ControlByte(df, wd, i);
    if c >= 64 {
      VshfZero(df, wd, ws, wt, i);
    } else if VshfSlot(df, c) < Count(df) {
      VshfFromWt(df, wd, ws, wt, i);
    } else {
      VshfFromWs(df, wd, ws, wt, i);
    }
  }

  /** A control byte with bit 6 or bit 7 set zeroes the element. */
  lemma VshfZero(df: Df, wd: seq<Byte>, ws: seq<Byte>, wt: seq<Byte>, i: nat)
    requires IsReg(wd) && IsReg(ws) && IsReg(wt) && i < Count(df)
    requires ControlByte(df, wd, i) >= 64
    ensures Element(df, Vshf(df, wd, ws, wt), i) == Repeat(0, Width(df))
  {
    ElementsShape(df, wd);
    ElementsShape(df, ws);
    ElementsShape(df, wt);
    var c, s, t := Elements(df, wd), Elements(df, ws), Elements(df, wt);
    ControlValue(df, wd, i);
    VshfElementsAt(df, c, s, t, i);
    FromElementsAt(df, VshfElements(df, c, s, t), i);
    EncodeZero(Width(df));
  }

  /** A control index below n selects that element of wt. */
  lemma VshfFromWt(df: Df, wd: seq<Byte>, ws: seq<Byte>, wt: seq<Byte>, i: nat)
    requires IsReg(wd) && IsReg(ws) && IsReg(wt) && i < Count(df)
    requires ControlByte(df, wd, i) < 64 && VshfSlot(df, ControlByte(df, wd, i)) < Count(df)
    ensures Element(df, Vshf(df, wd, ws, wt), i) == Element(df, wt, VshfSlot(df, ControlByte(df, wd, i)))
  {
    ElementsShape(df, wd);
    ElementsShape(df, ws);
    ElementsShape(df, wt);
    var c, s, t := Elements(df, wd), Elements(df, ws), Elements(df, wt);
    ControlValue(df, wd, i);
    VshfElementsAt(df, c, s, t, i);
    PickElement(df, VshfElements(df, c, s, t), wt, i, VshfSlot(df, c[i] % 256));
  }

  /** A control index from n on selects element index - n of ws. */
  lemma VshfFromWs(df: Df, wd: seq<Byte>, ws: seq<Byte>, wt: seq<Byte>, i: nat)
    requires IsReg(wd) && IsReg(ws) && IsReg(wt) && i < Count(df)
    requires ControlByte(df, wd, i) < 64 && VshfSlot(df, ControlByte(df, wd, i)) >= Count(df)
    ensures Element(df, Vshf(df, wd, ws, wt), i) == Element(df, ws, VshfSlot(df, ControlByte(df, wd, i)) - Count(df))
  {
    ElementsShape(df, wd);
    ElementsShape(df, ws);
    ElementsShape(df, wt);
    var c, s, t := Elements(df, wd), Elements(df, ws), Elements(df, wt);
    ControlValue(df, wd, i);
    VshfElementsAt(df, c, s, t, i);
    PickElement(df, VshfElements(df, c, s, t), ws, i, VshfSlot(df, c[i] % 256) - Count(df));
  }

  /** Value i of VSHF: zero, t's value at the selected index, or s's value at the index less n. */
  lemma VshfElementsAt(df: Df, c: seq<int>, s: seq<int>, t: seq<int>, i: nat)
    requires |c| == Count(df) && |s| == Count(df) && |t| == Count(df) && i < Count(df)
    ensures c[i] % 256 >= 64 ==> VshfElements(df, c, s, t)[i] == 0
    ensures c[i] % 256 < 64 && VshfSlot(df, c[i] % 256) < Count(df) ==>
            VshfElements(df, c, s, t)[i] == t[VshfSlot(df, c[i] % 256)]
    ensures c[i] % 256 < 64 && VshfSlot(df, c[i] % 256) >= Count(df) ==>
            VshfElements(df, c, s, t)[i] == s[VshfSlot(df, c[i] % 256) - Count(df)]
  {
  }
}
