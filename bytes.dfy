/**
 * Little-endian byte strings: the memory image of a vector register and of
 * each of its lanes. The model assumes a little-endian MIPS target: element 0
 * at the lowest address and the least significant byte of an element first.
 * Big-endian MSA targets are not modelled.
 */
module Bytes {

  /** One byte of a register image. */
  type Byte = x: int | 0 <= x < 256

  /** 256^n: the number of distinct values of an n-byte lane. */
  function Pow256(n: nat): (p: int)
    ensures p >= 1
  {
    if n == 0 then 1 else 256 * Pow256(n - 1)
  }

  lemma {:induction false} PowAdd(m: nat, n: nat)
    ensures Pow256(m + n) == Pow256(m) * Pow256(n)
  {
    if m > 0 {
      PowAdd(m - 1, n);
      assert Pow256(m + n) == 256 * Pow256(m - 1 + n);
      MulAssoc256(Pow256(m - 1), Pow256(n));
    }
  }

  /** n copies of byte b. */
  function Repeat(b: Byte, n: nat): (bs: seq<Byte>)
    ensures |bs| == n
  {
    seq(n, _ => b)
  }

  /** The value of a little-endian byte string read as an unsigned integer. */
  function Unsigned(bs: seq<Byte>): (u: nat)
    ensures u < Pow256(|bs|)
  {
    if bs == [] then 0 else bs[0] + 256 * Unsigned(bs[1..])
  }

  /** The value of a little-endian byte string read in two's complement. */
  function Signed(bs: seq<Byte>): (s: int)
    ensures bs != [] ==> -Pow256(|bs|) / 2 <= s < Pow256(|bs|) / 2
    ensures bs != [] ==> (s < 0 <==> bs[|bs| - 1] >= 128)
  {
    if bs == [] then 0
    else
      UnsignedTop(bs);
      if bs[|bs| - 1] >= 128 then Unsigned(bs) - Pow256(|bs|) else Unsigned(bs)
  }

  /** The n low-order bytes of x in two's complement, least significant first. */
  function Encode(x: int, n: nat): (bs: seq<Byte>)
    ensures |bs| == n
    decreases n
  {
    if n == 0 then [] else [x % 256] + Encode(x / 256, n - 1)
  }

  // ---------------------------------------------------------------------
  // Division facts used by the encoding lemmas
  // ---------------------------------------------------------------------

  lemma DivModUnique(x: int, m: int, q: int, r: int)
    requires m > 0 && x == m * q + r && 0 <= r < m
    ensures x / m == q && x % m == r
  {
    var d := x / m - q;
    assert m * d == r - x % m;
    if d >= 1 {
      MulMono(m, 1, d);
      assert false;
    } else if d <= -1 {
      MulMono(m, d, -1);
      assert false;
    }
  }

  lemma MulMono(m: int, a: int, b: int)
    requires m >= 0 && a <= b
    ensures m * a <= m * b
  {
    assert m * b - m * a == m * (b - a);
  }

  lemma MulStep(i: int, s: int)
    ensures (i - 1) * s + s == i * s
  {
  }

  lemma MulComm(a: int, b: int)
    ensures a * b == b * a
  {
  }

  lemma DivMod(x: int, a: int, b: int)
    requires a > 0 && b > 0
    ensures x / (a * b) == (x / a) / b
    ensures x % (a * b) == x % a + a * ((x / a) % b)
  {
    var q, r := x / a, x % a;
    var q2, r2 := q / b, q % b;
    assert x == (a * b) * q2 + (a * r2 + r) by {
      assert x == a * q + r;
      assert q == b * q2 + r2;
      assert a * q == a * (b * q2) + a * r2;
    }
    assert a * r2 <= a * (b - 1) by { MulMono(a, r2, b - 1); }
    assert 0 <= a * r2;
    DivModUnique(x, a * b, q2, a * r2 + r);
  }

  // ---------------------------------------------------------------------
  // Encode and Unsigned are inverse
  // ---------------------------------------------------------------------

  /** Reading back n encoded bytes gives x modulo 256^n. */
  lemma {:induction false} UnsignedEncode(x: int, n: nat)
    ensures Unsigned(Encode(x, n)) == x % Pow256(n)
    decreases n
  {
    if n > 0 {
      UnsignedEncode(x / 256, n - 1);
      assert Encode(x, n)[1..] == Encode(x / 256, n - 1);
      DivMod(x, 256, Pow256(n - 1));
    }
  }

  /** Encoding the unsigned value of a byte string gives the byte string back. */
  lemma {:induction false} EncodeUnsigned(bs: seq<Byte>)
    ensures Encode(Unsigned(bs), |bs|) == bs
  {
    if bs != [] {
      var u := Unsigned(bs);
      DivModUnique(u, 256, Unsigned(bs[1..]), bs[0]);
      EncodeUnsigned(bs[1..]);
      assert bs == [bs[0]] + bs[1..];
    }
  }

  /** Encode depends on x only modulo 256^n. */
  lemma EncodeCongruent(x: int, y: int, n: nat)
    requires x % Pow256(n) == y % Pow256(n)
    ensures Encode(x, n) == Encode(y, n)
  {
    UnsignedEncode(x, n);
    UnsignedEncode(y, n);
    EncodeUnsigned(Encode(x, n));
    EncodeUnsigned(Encode(y, n));
  }

  /** The first m bytes of an (m + n)-byte encoding are the m-byte encoding. */
  lemma {:induction false} EncodeSplit(x: int, m: nat, n: nat)
    ensures Encode(x, m + n) == Encode(x, m) + Encode(x / Pow256(m), n)
    decreases m
  {
    if m > 0 {
      EncodeSplit(x / 256, m - 1, n);
      DivMod(x, 256, Pow256(m - 1));
      assert Encode(x, m + n) == [x % 256] + Encode(x / 256, m - 1 + n);
      assert Encode(x, m) == [x % 256] + Encode(x / 256, m - 1);
      assert Pow256(m) == 256 * Pow256(m - 1);
    }
  }

  // ---------------------------------------------------------------------
  // Appending bytes and the top byte
  // ---------------------------------------------------------------------

  lemma {:induction false} UnsignedAppend(a: seq<Byte>, b: seq<Byte>)
    ensures Unsigned(a + b) == Unsigned(a) + Pow256(|a|) * Unsigned(b)
  {
    if a == [] {
      assert a + b == b;
    } else {
      assert (a + b)[1..] == a[1..] + b;
      UnsignedAppend(a[1..], b);
      var p, u, v := Pow256(|a| - 1), Unsigned(b), Unsigned(a[1..]);
      calc {
        Unsigned(a + b);
        a[0] + 256 * Unsigned(a[1..] + b);
        a[0] + 256 * (v + p * u);
        { MulAssoc256(p, u); }
        a[0] + 256 * v + (256 * p) * u;
        Unsigned(a) + Pow256(|a|) * u;
      }
    }
  }

  lemma MulAssoc256(p: int, u: int)
    ensures 256 * (p * u) == (256 * p) * u
  {
  }

  /** A byte string reads as at least half its range exactly when its last byte has the top bit set. */
  lemma UnsignedTop(bs: seq<Byte>)
    requires bs != []
    ensures Pow256(|bs|) == 256 * Pow256(|bs| - 1)
    ensures Unsigned(bs) >= Pow256(|bs|) / 2 <==> bs[|bs| - 1] >= 128
  {
    var n := |bs|;
    var p := Pow256(n - 1);
    var top := bs[n - 1];
    assert bs == bs[..n - 1] + [top];
    UnsignedAppend(bs[..n - 1], [top]);
    assert Unsigned([top]) == top;
    var low := Unsigned(bs[..n - 1]);
    assert Unsigned(bs) == low + p * top;
    if top >= 128 {
      MulMono(p, 128, top);
    } else {
      MulMono(p, top, 127);
    }
  }

  lemma {:induction false} UnsignedRepeat(b: Byte, n: nat)
    ensures b == 0 ==> Unsigned(Repeat(b, n)) == 0
    ensures b == 255 ==> Unsigned(Repeat(b, n)) == Pow256(n) - 1
  {
    if n > 0 {
      assert Repeat(b, n)[1..] == Repeat(b, n - 1);
      UnsignedRepeat(b, n - 1);
    }
  }

  /** Appending zero bytes does not change the unsigned value (zero extension). */
  lemma ZeroExtend(a: seq<Byte>, n: nat)
    ensures Unsigned(a + Repeat(0, n)) == Unsigned(a)
  {
    UnsignedAppend(a, Repeat(0, n));
    UnsignedRepeat(0, n);
  }

  /** The fill byte that sign-extends a byte string: all ones when it is negative. */
  function SignFill(a: seq<Byte>): (m: Byte)
    requires a != []
  {
    if a[|a| - 1] >= 128 then 255 else 0
  }

  /** Appending copies of the sign byte does not change the signed value (sign extension). */
  lemma SignExtend(a: seq<Byte>, n: nat)
    requires a != []
    ensures Signed(a + Repeat(SignFill(a), n)) == Signed(a)
  {
    var f := SignFill(a);
    var r := Repeat(f, n);
    var e := a + r;
    if n == 0 {
      assert e == a;
    } else {
      var p, q := Pow256(|a|), Pow256(n);
      UnsignedAppend(a, r);
      UnsignedRepeat(f, n);
      assert e[|e| - 1] == f;
      if f == 255 {
        PowAdd(|a|, n);
        assert Unsigned(r) == q - 1;
        MulSubOne(p, q);
        assert Unsigned(e) == Unsigned(a) + p * q - p;
        assert Signed(e) == Unsigned(e) - p * q;
        assert Signed(a) == Unsigned(a) - p;
      } else {
        assert Unsigned(r) == 0;
        assert Unsigned(e) == Unsigned(a);
        assert Signed(e) == Unsigned(e);
        assert Signed(a) == Unsigned(a);
      }
    }
  }

  lemma MulSubOne(p: int, q: int)
    ensures p * (q - 1) == p * q - p
  {
  }

  // ---------------------------------------------------------------------
  // Encode and Signed are inverse
  // ---------------------------------------------------------------------

  /** What x % p is near zero, and that x and x % p differ by a multiple of p. */
  lemma ModWindow(x: int, p: int)
    requires p > 0
    ensures (x - x % p) % p == 0 && (x - (x % p - p)) % p == 0
    ensures 0 <= x < p ==> x % p == x
    ensures -p <= x < 0 ==> x % p == x + p
  {
    DivModUnique(x - x % p, p, x / p, 0);
    DivModUnique(x - (x % p - p), p, x / p + 1, 0);
    if 0 <= x < p {
      DivModUnique(x, p, 0, x);
    } else if -p <= x < 0 {
      DivModUnique(x, p, -1, x + p);
    }
  }

  /** Numbers that differ by a multiple of p leave the same remainder. */
  lemma CongruentMod(x: int, y: int, p: int)
    requires p > 0 && (x - y) % p == 0
    ensures x % p == y % p
  {
    var q := (x - y) / p;
    assert x - y == p * q;
    DivModUnique(x, p, y / p + q, y % p);
  }

  /** x reduced to the signed range of n bytes, as storing it in an n-byte lane does. */
  function SignedWrap(x: int, n: nat): (r: int)
    requires n >= 1
    ensures -Pow256(n) / 2 <= r < Pow256(n) / 2
    ensures (x - r) % Pow256(n) == 0
    ensures -Pow256(n) / 2 <= x < Pow256(n) / 2 ==> r == x
  {
    var p := Pow256(n);
    assert p == 256 * Pow256(n - 1);
    ModWindow(x, p);
    var m := x % p;
    if m >= p / 2 then m - p else m
  }

  /** Reading back n encoded bytes in two's complement gives x wrapped to n bytes. */
  lemma SignedEncode(x: int, n: nat)
    requires n >= 1
    ensures Signed(Encode(x, n)) == SignedWrap(x, n)
  {
    UnsignedEncode(x, n);
    UnsignedTop(Encode(x, n));
  }

  /** Encoding the signed value of a byte string gives the byte string back. */
  lemma EncodeSigned(bs: seq<Byte>)
    requires bs != []
    ensures Encode(Signed(bs), |bs|) == bs
  {
    var p := Pow256(|bs|);
    var u: int := Unsigned(bs);
    UnsignedTop(bs);
    if bs[|bs| - 1] >= 128 {
      ModWindow(u - p, p);
      ModWindow(u, p);
      EncodeCongruent(u - p, u, |bs|);
    }
    EncodeUnsigned(bs);
  }

  /** Appending n copies of 0 or 255 to a: the two's complement reading of the result. */
  lemma SignedFill(a: seq<Byte>, m: Byte, n: nat)
    requires a != [] && n >= 1 && (m == 0 || m == 255)
    ensures Signed(a + Repeat(m, n)) == Unsigned(a) - (if m == 255 then Pow256(|a|) else 0)
  {
    var e := a + Repeat(m, n);
    FillTop(a, m, n);
    UnsignedFill(a, m, n);
    if m == 255 {
      var p, q := Pow256(|a|), Pow256(n);
      PowLength(a, Repeat(m, n));
      MulSubOne(p, q);
      Cancel(Signed(e), Unsigned(e), Unsigned(a), p, p * q, p * (q - 1));
    }
  }

  /** A string ending in fill byte m is negative exactly when m is 255. */
  lemma FillTop(a: seq<Byte>, m: Byte, n: nat)
    requires n >= 1 && (m == 0 || m == 255)
    ensures Signed(a + Repeat(m, n)) == Unsigned(a + Repeat(m, n)) - (if m == 255 then Pow256(|a + Repeat(m, n)|) else 0)
  {
    var e := a + Repeat(m, n);
    assert e[|e| - 1] == m;
    SignedDef(e);
  }

  lemma PowLength(a: seq<Byte>, b: seq<Byte>)
    ensures Pow256(|a + b|) == Pow256(|a|) * Pow256(|b|)
  {
    PowAdd(|a|, |b|);
  }

  lemma Cancel(s: int, ue: int, ua: int, p: int, pq: int, pq1: int)
    requires s == ue - pq && ue == ua + pq1 && pq1 == pq - p
    ensures s == ua - p
  {
  }

  lemma UnsignedFill(a: seq<Byte>, m: Byte, n: nat)
    requires m == 0 || m == 255
    ensures Unsigned(a + Repeat(m, n)) == Unsigned(a) + (if m == 255 then Pow256(|a|) * (Pow256(n) - 1) else 0)
  {
    var r := Repeat(m, n);
    var p, u := Pow256(|a|), Unsigned(r);
    UnsignedAppend(a, r);
    assert Unsigned(a + r) == Unsigned(a) + p * u;
    UnsignedRepeat(m, n);
    if m == 255 {
      assert u == Pow256(n) - 1;
    } else {
      assert u == 0;
      MulZero(p, u);
    }
  }

  lemma MulZero(p: int, u: int)
    requires u == 0
    ensures p * u == 0
  {
  }

  lemma SignedDef(bs: seq<Byte>)
    requires bs != []
    ensures Signed(bs) == Unsigned(bs) - (if bs[|bs| - 1] >= 128 then Pow256(|bs|) else 0)
  {
  }

  /** The unsigned reading of a byte string exceeds its signed reading by 256^n when it is negative. */
  lemma UnsignedOfSigned(a: seq<Byte>)
    requires a != []
    ensures Unsigned(a) == Signed(a) + (if Signed(a) < 0 then Pow256(|a|) else 0)
  {
  }

  /** n zero bytes are the encoding of 0. */
  lemma EncodeZero(n: nat)
    ensures Encode(0, n) == Repeat(0, n)
  {
    UnsignedRepeat(0, n);
    EncodeUnsigned(Repeat(0, n));
  }

  /** The first byte of an encoding is the value modulo 256. */
  lemma EncodeLow(x: int, n: nat)
    requires n >= 1
    ensures Encode(x, n)[0] == x % 256
  {
  }
}
