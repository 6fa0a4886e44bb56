/** Byte strings: their order, and words as big-endian bytes. */
module Bytes {

  type Byte = x: nat | x < 256

  // ---------- order ----------

  /** bytes.Compare(a, b) == -1. */
  predicate BytesLess(a: seq<Byte>, b: seq<Byte>) {
    if b == [] then false
    else if a == [] then true
    else a[0] < b[0] || (a[0] == b[0] && BytesLess(a[1..], b[1..]))
  }

  lemma {:induction false} BytesLessTrans(a: seq<Byte>, b: seq<Byte>, c: seq<Byte>)
    requires BytesLess(a, b) && BytesLess(b, c)
    ensures BytesLess(a, c)
    decreases |a|
  {
    if a != [] && a[0] == b[0] == c[0] {
      BytesLessTrans(a[1..], b[1..], c[1..]);
    }
  }

  lemma {:induction false} BytesLessTotal(a: seq<Byte>, b: seq<Byte>)
    ensures !(BytesLess(a, b) && BytesLess(b, a))
    ensures a == b || BytesLess(a, b) || BytesLess(b, a)
    decreases |a|
  {
    if a != [] && b != [] && a[0] == b[0] {
      BytesLessTotal(a[1..], b[1..]);
      assert a == [a[0]] + a[1..] && b == [b[0]] + b[1..];
    }
  }

  /** Not less is transitive too. */
  lemma NotLessTrans(a: seq<Byte>, b: seq<Byte>, c: seq<Byte>)
    requires !BytesLess(b, a) && !BytesLess(c, b)
    ensures !BytesLess(c, a)
  {
    BytesLessTotal(a, b);
    BytesLessTotal(b, c);
    if BytesLess(c, a) {
      if a != b {
        BytesLessTrans(c, a, b);
      }
    }
  }

  // ---------- words as bytes ----------

  function Pow256(n: nat): nat {
    if n == 0 then 1 else 256 * Pow256(n - 1)
  }

  /** The last n bytes of w, most significant first. */
  function BigEndian(w: nat, n: nat): (bs: seq<Byte>)
    ensures |bs| == n
  {
    if n == 0 then [] else BigEndian(w / 256, n - 1) + [w % 256]
  }

  function ValueOf(bs: seq<Byte>): nat {
    if bs == [] then 0 else 256 * ValueOf(bs[..|bs| - 1]) + bs[|bs| - 1]
  }

  lemma {:induction false} ValueOfBigEndian(w: nat, n: nat)
    requires w < Pow256(n)
    ensures ValueOf(BigEndian(w, n)) == w
  {
    if n > 0 {
      ValueOfBigEndian(w / 256, n - 1);
      assert BigEndian(w, n)[..n - 1] == BigEndian(w / 256, n - 1);
    }
  }

  lemma {:induction false} BigEndianOfValue(bs: seq<Byte>)
    ensures ValueOf(bs) < Pow256(|bs|) && BigEndian(ValueOf(bs), |bs|) == bs
  {
    if bs != [] {
      BigEndianOfValue(bs[..|bs| - 1]);
      assert bs == bs[..|bs| - 1] + [bs[|bs| - 1]];
    }
  }

  lemma {:induction false} SplitValue(bs: seq<Byte>)
    requires bs != []
    ensures ValueOf(bs) == bs[0] * Pow256(|bs| - 1) + ValueOf(bs[1..])
    ensures ValueOf(bs[1..]) < Pow256(|bs| - 1)
  {
    BigEndianOfValue(bs[1..]);
    if |bs| > 1 {
      var n := |bs| - 1;
      SplitValue(bs[..n]);
      assert bs[..n][1..] == bs[1..][..n - 1];
      Reassociate(bs[0], Pow256(n - 1));
    }
  }

  lemma Reassociate(b: nat, p: nat)
    ensures 256 * (b * p) == b * (256 * p)
  {
  }

  lemma LargerHead(b: nat, c: nat, p: nat, x: nat, y: nat)
    requires b < c && x < p
    ensures b * p + x < c * p + y
  {
    assert (b + 1) * p <= c * p;
  }

  /** Byte order is numeric order for words of the same length. */
  lemma {:induction false} BytesLessIsNumeric(a: seq<Byte>, b: seq<Byte>)
    requires |a| == |b|
    ensures BytesLess(a, b) <==> ValueOf(a) < ValueOf(b)
    decreases |a|
  {
    if a != [] {
      SplitValue(a);
      SplitValue(b);
      var p := Pow256(|a| - 1);
      if a[0] < b[0] {
        LargerHead(a[0], b[0], p, ValueOf(a[1..]), ValueOf(b[1..]));
      } else if b[0] < a[0] {
        LargerHead(b[0], a[0], p, ValueOf(b[1..]), ValueOf(a[1..]));
      } else {
        BytesLessIsNumeric(a[1..], b[1..]);
      }
    }
  }

  /** The first difference decides between two-part strings. */
  lemma {:induction false} BytesLessConcat(a: seq<Byte>, a': seq<Byte>, b: seq<Byte>, b': seq<Byte>)
    requires |a| == |b|
    ensures BytesLess(a + a', b + b') <==> BytesLess(a, b) || (a == b && BytesLess(a', b'))
    decreases |a|
  {
    if a == [] {
      assert a + a' == a' && b + b' == b';
    } else {
      assert (a + a')[1..] == a[1..] + a' && (b + b')[1..] == b[1..] + b';
      BytesLessConcat(a[1..], a', b[1..], b');
      assert a == [a[0]] + a[1..] && b == [b[0]] + b[1..];
    }
  }

  // ---------- shifts and or ----------

  /** w >> (8 * k) */
  function ShiftRight(w: nat, k: nat): nat {
    if k == 0 then w else ShiftRight(w / 256, k - 1)
  }

  /** w << (8 * k) */
  function ShiftLeft(w: nat, k: nat): nat {
    if k == 0 then w else 256 * ShiftLeft(w, k - 1)
  }

  function Or(x: nat, y: nat): nat {
    if x == 0 && y == 0 then 0
    else 2 * Or(x / 2, y / 2) + (if x % 2 == 1 || y % 2 == 1 then 1 else 0)
  }

  lemma {:induction false} ByteOfBigEndian(w: nat, n: nat, i: nat)
    requires i < n
    ensures BigEndian(w, n)[i] == ShiftRight(w, n - 1 - i) % 256
  {
    if i < n - 1 {
      ByteOfBigEndian(w / 256, n - 1, i);
    }
  }

  lemma {:induction false} OrZero(x: nat)
    ensures Or(0, x) == x && Or(x, 0) == x
  {
    if x > 0 {
      OrZero(x / 2);
    }
  }

  lemma {:induction false} OrAssoc(x: nat, y: nat, z: nat)
    ensures Or(Or(x, y), z) == Or(x, Or(y, z))
  {
    if x != 0 || y != 0 || z != 0 {
      OrAssoc(x / 2, y / 2, z / 2);
      OrHalves(x, y);
      OrHalves(y, z);
    }
  }

  lemma OrHalves(x: nat, y: nat)
    ensures Or(x, y) / 2 == Or(x / 2, y / 2)
    ensures Or(x, y) % 2 == if x % 2 == 1 || y % 2 == 1 then 1 else 0
  {
  }

  function Pow2(n: nat): nat {
    if n == 0 then 1 else 2 * Pow2(n - 1)
  }

  lemma {:induction false} OrOfLowBits(v: nat, b: nat, n: nat)
    requires b < Pow2(n)
    ensures Or(v * Pow2(n), b) == v * Pow2(n) + b
  {
    if n == 0 {
      OrZero(v);
    } else {
      var x := v * Pow2(n - 1);
      assert v * Pow2(n) == 2 * x;
      OrOfLowBits(v, b / 2, n - 1);
    }
  }

  lemma OrDouble(x: nat, y: nat)
    ensures Or(2 * x, 2 * y) == 2 * Or(x, y)
  {
  }

  lemma OrByteUp(x: nat, y: nat)
    ensures Or(256 * x, 256 * y) == 256 * Or(x, y)
  {
    hide Or;
    OrDouble(x, y);
    OrDouble(2 * x, 2 * y);
    OrDouble(4 * x, 4 * y);
    OrDouble(8 * x, 8 * y);
    OrDouble(16 * x, 16 * y);
    OrDouble(32 * x, 32 * y);
    OrDouble(64 * x, 64 * y);
    OrDouble(128 * x, 128 * y);
  }

  lemma {:induction false} OrShifted(x: nat, y: nat, k: nat)
    ensures Or(ShiftLeft(x, k), ShiftLeft(y, k)) == ShiftLeft(Or(x, y), k)
  {
    if k > 0 {
      OrShifted(x, y, k - 1);
      OrByteUp(ShiftLeft(x, k - 1), ShiftLeft(y, k - 1));
    }
  }

  /** Or-ing in the next byte below those already placed. */
  lemma OrNextByte(v: nat, b: Byte, k: nat)
    ensures Or(ShiftLeft(v, k + 1), ShiftLeft(b, k)) == ShiftLeft(256 * v + b, k)
  {
    ShiftLeftByte(v, k);
    OrShifted(256 * v, b, k);
    assert Pow2(8) == 256;
    OrOfLowBits(v, b, 8);
  }

  lemma {:induction false} ShiftLeftByte(v: nat, k: nat)
    ensures ShiftLeft(v, k + 1) == ShiftLeft(256 * v, k)
  {
    if k > 0 {
      ShiftLeftByte(v, k - 1);
    }
  }

  lemma {:induction false} OrBound(x: nat, y: nat, n: nat)
    requires x < Pow2(n) && y < Pow2(n)
    ensures Or(x, y) < Pow2(n)
  {
    if n > 0 {
      OrBound(x / 2, y / 2, n - 1);
    }
  }
}
