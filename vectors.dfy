/**
 * The vector type model of the MSA backend: a 128-bit hardware vector holds
 * the lanes of one element kind; 256-bit and 512-bit vectors are composites
 * of a `lo` and a `hi` half of the same kind (composite_vector<T>), `lo`
 * holding the lower-numbered lanes.
 */
module Vectors {
  import opened Bytes

  /** The element kinds of the vector types (s8x16 ... f64x2 at 128 bits). */
  datatype Kind = S8 | S16 | S32 | S64 | U8 | U16 | U32 | U64 | F32 | F64

  /** Bytes per lane. */
  function Size(k: Kind): (n: nat)
  {
    match k
    case S8 | U8 => 1
    case S16 | U16 => 2
    case S32 | U32 | F32 => 4
    case S64 | U64 | F64 => 8
  }

  predicate IsSigned(k: Kind)
  {
    k == S8 || k == S16 || k == S32 || k == S64
  }

  /**
   * The value of one lane read from its bytes. Signed integer lanes read in
   * two's complement; unsigned lanes and floating-point lanes read unsigned,
   * so a float lane is carried as its IEEE-754 bit pattern.
   */
  function LaneValue(k: Kind, bs: seq<Byte>): (x: int)
    requires |bs| == Size(k)
  {
    if IsSigned(k) then Signed(bs) else Unsigned(bs)
  }

  /** The values a lane of kind k can hold. */
  predicate InRange(k: Kind, x: int)
  {
    var p := Pow256(Size(k));
    if IsSigned(k) then -p / 2 <= x < p / 2 else 0 <= x < p
  }

  /** x stored into a lane of kind k: reduced modulo 2^(8 * Size(k)) into the lane's range. */
  function Wrap(k: Kind, x: int): (r: int)
    ensures InRange(k, r)
    ensures (x - r) % Pow256(Size(k)) == 0
    ensures InRange(k, x) ==> r == x
  {
    if IsSigned(k) then SignedWrap(x, Size(k))
    else ModWindow(x, Pow256(Size(k))); x % Pow256(Size(k))
  }

  /** Reading back the bytes a lane store writes gives the wrapped value. */
  lemma LaneValueEncode(k: Kind, x: int)
    ensures LaneValue(k, Encode(x, Size(k))) == Wrap(k, x)
  {
    if IsSigned(k) {
      SignedEncode(x, Size(k));
    } else {
      UnsignedEncode(x, Size(k));
    }
  }

  /** Storing the value read from a lane's bytes writes the same bytes. */
  lemma EncodeLaneValue(k: Kind, bs: seq<Byte>)
    requires |bs| == Size(k)
    ensures Encode(LaneValue(k, bs), Size(k)) == bs
  {
    if IsSigned(k) {
      EncodeSigned(bs);
    } else {
      EncodeUnsigned(bs);
    }
  }

  lemma LaneValueInRange(k: Kind, bs: seq<Byte>)
    requires |bs| == Size(k)
    ensures InRange(k, LaneValue(k, bs))
  {
  }

  // ---------------------------------------------------------------------
  // Lanes <-> bytes
  // ---------------------------------------------------------------------

  /** The memory image of a sequence of lanes of kind k, lane 0 first. */
  function EncodeLanes(k: Kind, ls: seq<int>): (bs: seq<Byte>)
  {
    if ls == [] then [] else Encode(ls[0], Size(k)) + EncodeLanes(k, ls[1..])
  }

  /** The lanes of kind k read from a memory image (a trailing partial lane is ignored). */
  function DecodeLanes(k: Kind, bs: seq<Byte>): (ls: seq<int>)
    decreases |bs|
  {
    if |bs| < Size(k) then []
    else [LaneValue(k, bs[..Size(k)])] + DecodeLanes(k, bs[Size(k)..])
  }

  /** The bytes of element e of width w: skip e elements of w bytes, then take w bytes. */
  function Elem(bs: seq<Byte>, w: nat, e: nat): (r: seq<Byte>)
    requires e * w + w <= |bs|
    ensures |r| == w
    decreases e
  {
    if e == 0 then bs[..w]
    else
      MulStep(e, w);
      Elem(bs[w..], w, e - 1)
  }

  /** Element e of width w is bytes e*w up to (e+1)*w. */
  lemma {:induction false} ElemSlice(bs: seq<Byte>, w: nat, e: nat)
    requires e * w + w <= |bs|
    ensures Elem(bs, w, e) == bs[e * w .. e * w + w]
    decreases e
  {
    if e > 0 {
      MulStep(e, w);
      ElemSlice(bs[w..], w, e - 1);
      SliceShift(bs, w, (e - 1) * w, w);
    }
  }

  /** Slicing after dropping a prefix of length d is slicing the whole at an offset of d. */
  lemma SliceShift(bs: seq<Byte>, d: nat, o: nat, w: nat)
    requires d + o + w <= |bs|
    ensures bs[d..][o..o + w] == bs[d + o..d + o + w]
  {
  }

  /** An image of n whole lanes decodes to n lanes. */
  lemma {:induction false} DecodeLanesLength(k: Kind, bs: seq<Byte>, n: nat)
    requires |bs| == n * Size(k)
    ensures |DecodeLanes(k, bs)| == n
    decreases n
  {
    if n > 0 {
      MulStep(n, Size(k));
      DecodeLanesLength(k, bs[Size(k)..], n - 1);
    }
  }

  /** Lane i of a decoded image is read from bytes i*Size(k) up to (i+1)*Size(k). */
  lemma {:induction false} DecodeLanesAt(k: Kind, bs: seq<Byte>, i: nat)
    requires i * Size(k) + Size(k) <= |bs|
    ensures i < |DecodeLanes(k, bs)|
    ensures DecodeLanes(k, bs)[i] == LaneValue(k, Elem(bs, Size(k), i))
    decreases i
  {
    if i > 0 {
      MulStep(i, Size(k));
      DecodeLanesAt(k, bs[Size(k)..], i - 1);
    }
  }

  /** Lane i of kind k is stored at bytes i*Size(k) up to (i+1)*Size(k). */
  lemma {:induction false} EncodeLanesAt(k: Kind, ls: seq<int>, i: nat)
    requires i < |ls|
    ensures i * Size(k) + Size(k) <= |EncodeLanes(k, ls)|
    ensures Elem(EncodeLanes(k, ls), Size(k), i) == Encode(ls[i], Size(k))
    decreases i
  {
    if i == 0 {
      EncodeLanesHead(k, ls);
    } else {
      EncodeLanesAt(k, ls[1..], i - 1);
      EncodeLanesStep(k, ls, i);
    }
  }

  /** Lane i of ls sits Size(k) bytes further on than lane i - 1 of ls[1..]. */
  lemma EncodeLanesStep(k: Kind, ls: seq<int>, i: nat)
    requires 0 < i < |ls|
    requires (i - 1) * Size(k) + Size(k) <= |EncodeLanes(k, ls[1..])|
    ensures i * Size(k) + Size(k) <= |EncodeLanes(k, ls)|
    ensures Elem(EncodeLanes(k, ls), Size(k), i) == Elem(EncodeLanes(k, ls[1..]), Size(k), i - 1)
  {
    EncodeLanesHead(k, ls);
    MulStep(i, Size(k));
  }

  lemma {:induction false} EncodeLanesLength(k: Kind, ls: seq<int>)
    ensures |EncodeLanes(k, ls)| == |ls| * Size(k)
  {
    if ls != [] {
      EncodeLanesLength(k, ls[1..]);
      MulStep(|ls|, Size(k));
    }
  }

  /** The first Size(k) bytes of an image hold lane 0, the rest the other lanes. */
  lemma EncodeLanesHead(k: Kind, ls: seq<int>)
    requires ls != []
    ensures EncodeLanes(k, ls)[..Size(k)] == Encode(ls[0], Size(k))
    ensures EncodeLanes(k, ls)[Size(k)..] == EncodeLanes(k, ls[1..])
  {
    var bs := EncodeLanes(k, ls);
    assert bs == Encode(ls[0], Size(k)) + EncodeLanes(k, ls[1..]);
  }

  lemma {:induction false} DecodeLanesInRange(k: Kind, bs: seq<Byte>)
    ensures forall i | 0 <= i < |DecodeLanes(k, bs)| :: InRange(k, DecodeLanes(k, bs)[i])
    decreases |bs|
  {
    if |bs| >= Size(k) {
      LaneValueInRange(k, bs[..Size(k)]);
      DecodeLanesInRange(k, bs[Size(k)..]);
      ConsInRange(k, LaneValue(k, bs[..Size(k)]), DecodeLanes(k, bs[Size(k)..]));
    }
  }

  lemma ConsInRange(k: Kind, x: int, rest: seq<int>)
    requires InRange(k, x) && forall i | 0 <= i < |rest| :: InRange(k, rest[i])
    ensures forall i | 0 <= i < |[x] + rest| :: InRange(k, ([x] + rest)[i])
  {
  }

  /** Decoding the image of in-range lanes gives the lanes back. */
  lemma {:induction false} DecodeEncode(k: Kind, ls: seq<int>)
    requires forall i | 0 <= i < |ls| :: InRange(k, ls[i])
    ensures DecodeLanes(k, EncodeLanes(k, ls)) == ls
  {
    if ls != [] {
      EncodeLanesHead(k, ls);
      LaneValueEncode(k, ls[0]);
      TailInRange(k, ls);
      DecodeEncode(k, ls[1..]);
      assert ls == [ls[0]] + ls[1..];
    }
  }

  lemma TailInRange(k: Kind, ls: seq<int>)
    requires ls != [] && forall i | 0 <= i < |ls| :: InRange(k, ls[i])
    ensures forall i | 0 <= i < |ls[1..]| :: InRange(k, ls[1..][i])
  {
    forall i | 0 <= i < |ls[1..]|
      ensures InRange(k, ls[1..][i])
    {
      assert ls[1..][i] == ls[i + 1];
    }
  }

  /** Encoding the lanes decoded from a whole number of lanes gives the image back. */
  lemma {:induction false} EncodeDecode(k: Kind, bs: seq<Byte>, n: nat)
    requires |bs| == n * Size(k)
    ensures EncodeLanes(k, DecodeLanes(k, bs)) == bs
    decreases n
  {
    if n > 0 {
      var s := Size(k);
      MulStep(n, s);
      MulMono(s, 0, n - 1);
      MulComm(s, n - 1);
      assert |bs[s..]| == (n - 1) * s;
      EncodeDecode(k, bs[s..], n - 1);
      EncodeLaneValue(k, bs[..s]);
      var ls := DecodeLanes(k, bs);
      assert ls[1..] == DecodeLanes(k, bs[s..]);
      assert bs == bs[..s] + bs[s..];
    } else {
      assert |bs| == 0;
    }
  }

  lemma {:induction false} EncodeLanesAppend(k: Kind, a: seq<int>, b: seq<int>)
    ensures EncodeLanes(k, a + b) == EncodeLanes(k, a) + EncodeLanes(k, b)
  {
    if a != [] {
      assert (a + b)[1..] == a[1..] + b;
      EncodeLanesAppend(k, a[1..], b);
    } else {
      assert a + b == b;
    }
  }

  // ---------------------------------------------------------------------
  // Vector types and values
  // ---------------------------------------------------------------------

  /** A vector type: element kind and total width in bits (128, 256 or 512). */
  datatype VType = VType(kind: Kind, bits: nat)

  function Half(t: VType): VType
  {
    VType(t.kind, t.bits / 2)
  }

  /**
   * A vector value. A Leaf is one 128-bit MSA register holding the lanes of
   * its kind; a Node is composite_vector<T> with its lo and hi halves.
   */
  datatype Vec = Leaf(kind: Kind, lanes: seq<int>) | Node(lo: Vec, hi: Vec)

  /** v is a value of vector type t. */
  predicate Has(v: Vec, t: VType)
  {
    match v
    case Leaf(k, ls) =>
      && t.bits == 128 && t.kind == k && |ls| * Size(k) == 16
      && forall i | 0 <= i < |ls| :: InRange(k, ls[i])
    case Node(lo, hi) =>
      (t.bits == 256 || t.bits == 512) && Has(lo, Half(t)) && Has(hi, Half(t))
  }

  /** All lanes of v, lane 0 first: lo's lanes, then hi's. */
  function Lanes(v: Vec): (ls: seq<int>)
  {
    match v
    case Leaf(_, ls) => ls
    case Node(lo, hi) => Lanes(lo) + Lanes(hi)
  }

  /** The memory image of v: lo's bytes, then hi's. */
  function Image(v: Vec): (bs: seq<Byte>)
  {
    match v
    case Leaf(k, ls) => EncodeLanes(k, ls)
    case Node(lo, hi) => Image(lo) + Image(hi)
  }

  /** A value of type t has t.bits / 8 bytes, and they are the image of its lanes in order. */
  lemma {:induction false} HasShape(v: Vec, t: VType)
    requires Has(v, t)
    ensures |Lanes(v)| * Size(t.kind) * 8 == t.bits
    ensures |Image(v)| * 8 == t.bits
    ensures forall i | 0 <= i < |Lanes(v)| :: InRange(t.kind, Lanes(v)[i])
    ensures Image(v) == EncodeLanes(t.kind, Lanes(v))
  {
    match v
    case Leaf(k, ls) =>
      EncodeLanesLength(k, ls);
    case Node(lo, hi) =>
      HasShape(lo, Half(t));
      HasShape(hi, Half(t));
      EncodeLanesAppend(t.kind, Lanes(lo), Lanes(hi));
      SumShape(|Lanes(lo)|, |Lanes(hi)|, Size(t.kind), Half(t).bits);
      assert Half(t).bits * 2 == t.bits;
  }

  lemma SumShape(n1: int, n2: int, s: int, b: int)
    requires n1 * s * 8 == b && n2 * s * 8 == b
    ensures (n1 + n2) * s * 8 == 2 * b
  {
    assert (n1 + n2) * s == n1 * s + n2 * s;
  }

  /** Two values of one type with the same lanes are the same value. */
  lemma {:induction false} LanesDetermine(a: Vec, b: Vec, t: VType)
    requires Has(a, t) && Has(b, t) && Lanes(a) == Lanes(b)
    ensures a == b
  {
    match a
    case Leaf(_, _) =>
    case Node(alo, ahi) =>
      SameCount(alo, b.lo, Half(t));
      var n := |Lanes(alo)|;
      assert Lanes(alo) == Lanes(a)[..n];
      assert Lanes(b.lo) == Lanes(b)[..n];
      LanesDetermine(alo, b.lo, Half(t));
      assert Lanes(ahi) == Lanes(a)[n..];
      assert Lanes(b.hi) == Lanes(b)[n..];
      LanesDetermine(ahi, b.hi, Half(t));
  }

  /** Two values of one type have the same number of lanes. */
  lemma SameCount(a: Vec, b: Vec, t: VType)
    requires Has(a, t) && Has(b, t)
    ensures |Lanes(a)| == |Lanes(b)|
  {
    HasShape(a, t);
    HasShape(b, t);
    MulCancel(|Lanes(a)| * Size(t.kind), |Lanes(b)| * Size(t.kind), 8);
    MulCancel(|Lanes(a)|, |Lanes(b)|, Size(t.kind));
  }

  lemma MulCancel(x: int, y: int, c: int)
    requires c > 0 && x * c == y * c
    ensures x == y
  {
    MulStrict(x, y, c);
    MulStrict(y, x, c);
  }

  lemma MulStrict(x: int, y: int, c: int)
    requires c > 0
    ensures x < y ==> x * c < y * c
  {
    if x < y {
      MulMono(c, x + 1, y);
      assert c * (x + 1) == x * c + c;
    }
  }

  /** Two values of one type with the same memory image are the same value. */
  lemma ImageDetermines(a: Vec, b: Vec, t: VType)
    requires Has(a, t) && Has(b, t) && Image(a) == Image(b)
    ensures a == b
  {
    HasShape(a, t);
    HasShape(b, t);
    DecodeEncode(t.kind, Lanes(a));
    DecodeEncode(t.kind, Lanes(b));
    LanesDetermine(a, b, t);
  }

  /** The 128-bit register holding lanes decoded from 16 bytes: the cast `(T::vector) r`. */
  function Cast(k: Kind, r: seq<Byte>): (v: Vec)
  {
    Leaf(k, DecodeLanes(k, r))
  }

  lemma CastHas(k: Kind, r: seq<Byte>)
    requires |r| == 16
    ensures Has(Cast(k, r), VType(k, 128))
    ensures Image(Cast(k, r)) == r
  {
    var n := 16 / Size(k);
    assert n * Size(k) == 16;
    DecodeLanesLength(k, r, n);
    DecodeLanesInRange(k, r);
    EncodeDecode(k, r, n);
  }

  /** An element of width 2w is the two elements of width w it covers. */
  lemma ElemPair(bs: seq<Byte>, w: nat, i: nat)
    requires i * (2 * w) + 2 * w <= |bs|
    ensures (2 * i + 1) * w + w <= |bs|
    ensures Elem(bs, 2 * w, i) == Elem(bs, w, 2 * i) + Elem(bs, w, 2 * i + 1)
  {
    var a := i * (2 * w);
    PairOffsets(i, w);
    ElemSlice(bs, 2 * w, i);
    ElemSlice(bs, w, 2 * i);
    ElemSlice(bs, w, 2 * i + 1);
    SplitSlice(bs, a, w);
  }

  lemma SplitSlice(bs: seq<Byte>, a: nat, w: nat)
    requires a + 2 * w <= |bs|
    ensures bs[a..a + 2 * w] == bs[a..a + w] + bs[a + w..a + 2 * w]
  {
  }

  lemma PairOffsets(i: int, w: int)
    ensures i * (2 * w) == (2 * i) * w
    ensures (2 * i + 1) * w == i * (2 * w) + w
  {
  }

  /** Lane i of a 128-bit register cast to kind k is read from its i-th Size(k) bytes. */
  lemma CastLane(k: Kind, r: seq<Byte>, i: nat)
    requires |r| == 16 && i * Size(k) + Size(k) <= 16
    ensures Has(Cast(k, r), VType(k, 128))
    ensures i < |Cast(k, r).lanes|
    ensures Cast(k, r).lanes[i] == LaneValue(k, Elem(r, Size(k), i))
  {
    CastHas(k, r);
    DecodeLanesAt(k, r, i);
  }

  /** The bytes of lane i of a 128-bit vector are the encoding of its value. */
  lemma ImageLane(v: Vec, k: Kind, i: nat)
    requires Has(v, VType(k, 128)) && i < |v.lanes|
    ensures |Image(v)| == 16
    ensures i * Size(k) + Size(k) <= 16
    ensures Elem(Image(v), Size(k), i) == Encode(v.lanes[i], Size(k))
  {
    HasShape(v, VType(k, 128));
    EncodeLanesAt(k, v.lanes, i);
  }
}
