/** Octet strings read as big-endian numbers, and the shortest two's-complement
    contents octets of ITU-T X.690 sections 8.3.2 and 8.3.3. */
module Bytes {

  type byte = b: int | 0 <= b < 256

  const TWO_63: int := 0x8000_0000_0000_0000
  const TWO_64: int := 0x1_0000_0000_0000_0000

  predicate FitsInt64(v: int) { -TWO_63 <= v < TWO_63 }

  /** Reads the octets after an already accumulated prefix. */
  function Fold(acc: int, bs: seq<byte>): int
    decreases |bs|
  {
    if bs == [] then acc else Fold(acc * 256 + bs[0], bs[1..])
  }

  function Unsigned(bs: seq<byte>): int { Fold(0, bs) }

  /** An infinite row of sign bits stands before the first octet. */
  function SignOf(bs: seq<byte>): int
  {
    if bs != [] && bs[0] >= 128 then -1 else 0
  }

  function Signed(bs: seq<byte>): int { Fold(SignOf(bs), bs) }

  /** The first octet carries nothing that bit 8 of the second does not. */
  predicate Superfluous(b0: byte, b1: byte)
  {
    (b0 == 0 && b1 < 128) || (b0 == 255 && b1 >= 128)
  }

  predicate Shortest(bs: seq<byte>)
  {
    bs != [] && (|bs| > 1 ==> !Superfluous(bs[0], bs[1]))
  }

  /** Contents octets without superfluous leading ones. */
  function Trim(bs: seq<byte>): seq<byte>
  {
    if |bs| > 1 && Superfluous(bs[0], bs[1]) then Trim(bs[1..]) else bs
  }

  /** The n low octets of v, most significant first: the object representation of v. */
  function ToBytes(v: int, n: nat): (bs: seq<byte>)
    ensures |bs| == n
    decreases n
  {
    if n == 0 then [] else ToBytes(v / 256, n - 1) + [v % 256]
  }

  /** The encoding asn_imax2INTEGER is meant to produce. */
  function Encode64(v: int): seq<byte> { Trim(ToBytes(v, 8)) }

  /** Floor division by 256, n times. */
  function ShiftRight(v: int, n: nat): int
    decreases n
  {
    if n == 0 then v else ShiftRight(v / 256, n - 1)
  }

  lemma {:induction false} FoldAppend(acc: int, a: seq<byte>, b: seq<byte>)
    ensures Fold(acc, a + b) == Fold(Fold(acc, a), b)
    decreases |a|
  {
    if a == [] {
      assert a + b == b;
    } else {
      assert (a + b)[1..] == a[1..] + b;
      FoldAppend(acc * 256 + a[0], a[1..], b);
    }
  }

  /** Equal length and equal reading force equal octets and equal prefixes. */
  lemma {:induction false} FoldInjective(i: int, a: seq<byte>, j: int, b: seq<byte>)
    requires |a| == |b|
    requires Fold(i, a) == Fold(j, b)
    ensures i == j && a == b
    decreases |a|
  {
    if a == [] {
    } else {
      FoldInjective(i * 256 + a[0], a[1..], j * 256 + b[0], b[1..]);
      assert a == [a[0]] + a[1..] && b == [b[0]] + b[1..];
    }
  }

  lemma {:induction false} FoldToBytes(v: int, n: nat)
    ensures Fold(ShiftRight(v, n), ToBytes(v, n)) == v
    decreases n
  {
    if n > 0 {
      FoldAppend(ShiftRight(v, n), ToBytes(v / 256, n - 1), [v % 256]);
      FoldToBytes(v / 256, n - 1);
      assert ShiftRight(v, n) == ShiftRight(v / 256, n - 1);
      var w := v / 256;
      assert Fold(w, [v % 256]) == Fold(w * 256 + v % 256, [v % 256][1..]);
    }
  }

  lemma {:induction false} ToBytesFirst(v: int, n: nat)
    requires n > 0
    ensures ToBytes(v, n)[0] == ShiftRight(v, n - 1) % 256
    decreases n
  {
    if n > 1 {
      ToBytesFirst(v / 256, n - 1);
    }
  }

  lemma ShiftRight64(v: int)
    requires FitsInt64(v)
    ensures -128 <= ShiftRight(v, 7) < 128 && (ShiftRight(v, 7) < 0 <==> v < 0)
    ensures ShiftRight(v, 8) == if v < 0 then -1 else 0
  {
    var s1 := v / 256;
    var s2 := s1 / 256;
    var s3 := s2 / 256;
    var s4 := s3 / 256;
    var s5 := s4 / 256;
    var s6 := s5 / 256;
    var s7 := s6 / 256;
    assert ShiftRight(v, 7) == ShiftRight(s1, 6) == ShiftRight(s2, 5) == ShiftRight(s3, 4)
        == ShiftRight(s4, 3) == ShiftRight(s5, 2) == ShiftRight(s6, 1) == s7;
    assert ShiftRight(v, 8) == ShiftRight(s1, 7) == ShiftRight(s2, 6) == ShiftRight(s3, 5)
        == ShiftRight(s4, 4) == ShiftRight(s5, 3) == ShiftRight(s6, 2) == ShiftRight(s7, 1) == s7 / 256;
  }

  /** Eight octets hold every 64-bit value. */
  lemma ToBytesSigned(v: int)
    requires FitsInt64(v)
    ensures Signed(ToBytes(v, 8)) == v
  {
    ShiftRight64(v);
    ToBytesFirst(v, 8);
    FoldToBytes(v, 8);
  }

  /** Cutting superfluous octets keeps the value and reaches a shortest form. */
  lemma {:induction false} TrimCorrect(bs: seq<byte>)
    requires bs != []
    ensures Shortest(Trim(bs))
    ensures Signed(Trim(bs)) == Signed(bs)
    ensures |Trim(bs)| <= |bs|
  {
    if |bs| > 1 && Superfluous(bs[0], bs[1]) {
      TrimCorrect(bs[1..]);
      assert Fold(SignOf(bs), bs) == Fold(SignOf(bs) * 256 + bs[0], bs[1..]);
    }
  }

  function Pow256(n: nat): nat { if n == 0 then 1 else 256 * Pow256(n - 1) }

  lemma {:induction false} FoldRange(acc: nat, bs: seq<byte>)
    ensures acc * Pow256(|bs|) <= Fold(acc, bs) < (acc + 1) * Pow256(|bs|)
    decreases |bs|
  {
    if bs != [] {
      var p := Pow256(|bs| - 1);
      FoldRange(acc * 256 + bs[0], bs[1..]);
      Scale(acc, bs[0], p);
    }
  }

  lemma Scale(acc: nat, b: byte, p: nat)
    ensures acc * (256 * p) <= (acc * 256 + b) * p && (acc * 256 + b + 1) * p <= (acc + 1) * (256 * p)
  {
    assert (acc * 256 + b) * p == acc * (256 * p) + b * p;
    assert (acc + 1) * (256 * p) == acc * (256 * p) + 256 * p;
    assert (b + 1) * p <= 256 * p;
  }

  lemma Pow256Of8()
    ensures Pow256(8) == TWO_64
  {
    assert Pow256(4) == 0x1_0000_0000;
    assert Pow256(8) == 256 * (256 * (256 * (256 * Pow256(4))));
  }

  lemma {:induction false} Pow256Grows(m: nat, n: nat)
    requires m <= n
    ensures 1 <= Pow256(m) <= Pow256(n)
    decreases n
  {
    if m < n {
      Pow256Grows(m, n - 1);
    } else if n > 0 {
      Pow256Grows(n - 1, n - 1);
    }
  }

  /** At most eight octets hold a 64-bit unsigned number; more do when the first is zero. */
  lemma EightAreUnsigned(bs: seq<byte>)
    ensures |bs| <= 8 ==> 0 <= Unsigned(bs) < TWO_64
    ensures |bs| > 8 && bs[0] != 0 ==> Unsigned(bs) >= TWO_64
    ensures |bs| > 8 && bs[0] == 0 ==> Unsigned(bs) == Unsigned(bs[1..])
  {
    Pow256Of8();
    hide Pow256;
    if |bs| <= 8 {
      FoldRange(0, bs);
      Pow256Grows(|bs|, 8);
    } else if bs[0] != 0 {
      FoldRange(bs[0], bs[1..]);
      Pow256Grows(8, |bs| - 1);
      AtLeastOnce(bs[0], Pow256(|bs| - 1));
    }
  }

  lemma AtLeastOnce(n: nat, p: nat)
    requires n > 0
    ensures n * p >= p
  {
  }

  /** The contents of a 64-bit unsigned number. */
  function EncodeUnsigned64(v: int): seq<byte> { if v < TWO_63 then Encode64(v) else [0] + ToBytes(v, 8) }

  lemma EncodeUnsigned64Correct(v: int)
    requires 0 <= v < TWO_64
    ensures Shortest(EncodeUnsigned64(v)) && Signed(EncodeUnsigned64(v)) == v
  {
    if v < TWO_63 {
      Encode64Correct(v);
    } else {
      var rep := ToBytes(v, 8);
      ToBytesFirst(v, 8);
      FoldToBytes(v, 8);
      ShiftRightUnsigned(v);
      var e := [0] + rep;
      assert e[1..] == rep && SignOf(e) == 0;
      assert Fold(0, e) == Fold(0, rep);
    }
  }

  lemma ShiftRightUnsigned(v: int)
    requires TWO_63 <= v < TWO_64
    ensures 128 <= ShiftRight(v, 7) < 256 && ShiftRight(v, 8) == 0
  {
    var s1 := v / 256;
    var s2 := s1 / 256;
    var s3 := s2 / 256;
    var s4 := s3 / 256;
    var s5 := s4 / 256;
    var s6 := s5 / 256;
    var s7 := s6 / 256;
    assert ShiftRight(v, 7) == ShiftRight(s1, 6) == ShiftRight(s2, 5) == ShiftRight(s3, 4)
        == ShiftRight(s4, 3) == ShiftRight(s5, 2) == ShiftRight(s6, 1) == s7;
    assert ShiftRight(v, 8) == ShiftRight(s1, 7) == ShiftRight(s2, 6) == ShiftRight(s3, 5)
        == ShiftRight(s4, 4) == ShiftRight(s5, 3) == ShiftRight(s6, 2) == ShiftRight(s7, 1) == s7 / 256;
  }

  lemma {:induction false} ToBytesAt(v: int, n: nat, k: nat)
    requires k < n
    ensures ToBytes(v, n)[k] == ShiftRight(v, n - 1 - k) % 256
    decreases n
  {
    if k < n - 1 { ToBytesAt(v / 256, n - 1, k); }
  }

  /** n more sign octets on the left. */
  function Extend(bs: seq<byte>, n: nat): (r: seq<byte>)
    requires bs != []
    ensures |r| == |bs| + n && r[n..] == bs
    ensures forall k :: 0 <= k < n ==> r[k] == if bs[0] >= 128 then 255 else 0
  {
    if n == 0 then bs else [if bs[0] >= 128 then 255 else 0] + Extend(bs, n - 1)
  }

  lemma {:induction false} ExtendKeepsValue(bs: seq<byte>, n: nat)
    requires bs != []
    ensures Signed(Extend(bs, n)) == Signed(bs)
  {
    if n > 0 {
      ExtendKeepsValue(bs, n - 1);
      var e := Extend(bs, n);
      assert e[1..] == Extend(bs, n - 1);
      assert Fold(SignOf(e), e) == Fold(SignOf(e) * 256 + e[0], e[1..]);
    }
  }

  /** No octet string of the same value is shorter than a shortest form. */
  lemma ShortestIsShortest(m: seq<byte>, c: seq<byte>)
    requires Shortest(m) && c != []
    requires Signed(m) == Signed(c)
    ensures |m| <= |c|
  {
    if |c| < |m| {
      var e := Extend(c, |m| - |c|);
      ExtendKeepsValue(c, |m| - |c|);
      FoldInjective(SignOf(m), m, SignOf(e), e);
      assert e[|m| - |c|..][0] == c[0];
      assert Superfluous(m[0], m[1]);
    }
  }

  /** X.690 section 8.3.2 leaves one encoding per value. */
  lemma ShortestUnique(a: seq<byte>, b: seq<byte>)
    requires Shortest(a) && Shortest(b)
    requires Signed(a) == Signed(b)
    ensures a == b
  {
    ShortestIsShortest(a, b);
    ShortestIsShortest(b, a);
    FoldInjective(SignOf(a), a, SignOf(b), b);
  }

  lemma Encode64Correct(v: int)
    requires FitsInt64(v)
    ensures Shortest(Encode64(v)) && Signed(Encode64(v)) == v && 1 <= |Encode64(v)| <= 8
  {
    ToBytesSigned(v);
    TrimCorrect(ToBytes(v, 8));
  }

  /** An octet string of any length has a 64-bit value exactly when its shortest form has at most 8 octets. */
  lemma FitsExactly(bs: seq<byte>)
    requires bs != []
    ensures FitsInt64(Signed(bs)) <==> |Trim(bs)| <= 8
  {
    TrimCorrect(bs);
    var t := Trim(bs);
    if FitsInt64(Signed(bs)) {
      Encode64Correct(Signed(bs));
      ShortestUnique(t, Encode64(Signed(bs)));
    }
    if |t| <= 8 {
      var e := Extend(t, 8 - |t|);
      ExtendKeepsValue(t, 8 - |t|);
      EightOctets(e);
    }
  }

  lemma EightOctets(e: seq<byte>)
    requires |e| == 8
    ensures FitsInt64(Signed(e))
  {
    var a0 := SignOf(e) * 256 + e[0];
    var a1 := a0 * 256 + e[1];
    var a2 := a1 * 256 + e[2];
    var a3 := a2 * 256 + e[3];
    var a4 := a3 * 256 + e[4];
    var a5 := a4 * 256 + e[5];
    var a6 := a5 * 256 + e[6];
    var a7 := a6 * 256 + e[7];
    assert Signed(e) == Fold(a0, e[1..]);
    assert e[1..][1..] == e[2..] && Fold(a0, e[1..]) == Fold(a1, e[2..]);
    assert e[2..][1..] == e[3..] && Fold(a1, e[2..]) == Fold(a2, e[3..]);
    assert e[3..][1..] == e[4..] && Fold(a2, e[3..]) == Fold(a3, e[4..]);
    assert e[4..][1..] == e[5..] && Fold(a3, e[4..]) == Fold(a4, e[5..]);
    assert e[5..][1..] == e[6..] && Fold(a4, e[5..]) == Fold(a5, e[6..]);
    assert e[6..][1..] == e[7..] && Fold(a5, e[6..]) == Fold(a6, e[7..]);
    assert e[7..][1..] == [] && Fold(a6, e[7..]) == Fold(a7, []);
  }
}
