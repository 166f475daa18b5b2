/** Numbers and octet strings as sequences of bits, most significant first. */
module BitSeqs {
  import opened Bytes

  type bit = b: int | 0 <= b < 2

  function P2(n: nat): (p: nat)
    ensures p > 0
  {
    if n == 0 then 1 else 2 * P2(n - 1)
  }

  lemma {:induction false} P2Add(m: nat, n: nat)
    ensures P2(m + n) == P2(m) * P2(n)
    decreases n
  {
    if n > 0 {
      P2Add(m, n - 1);
      TwiceProduct(P2(m), P2(n - 1));
    }
  }

  lemma TwiceProduct(a: nat, b: nat)
    ensures a * (2 * b) == 2 * (a * b)
  {
  }

  /** The n low bits of v. */
  function NatToBits(v: nat, n: nat): (bs: seq<bit>)
    ensures |bs| == n
  {
    if n == 0 then [] else NatToBits(v / 2, n - 1) + [v % 2]
  }

  function BitsToNat(bs: seq<bit>): nat
  {
    if bs == [] then 0 else BitsToNat(bs[..|bs| - 1]) * 2 + bs[|bs| - 1]
  }

  lemma {:induction false} NatBitsNat(v: nat, n: nat)
    requires v < P2(n)
    ensures BitsToNat(NatToBits(v, n)) == v
    decreases n
  {
    if n > 0 {
      NatBitsNat(v / 2, n - 1);
      assert NatToBits(v, n)[..n - 1] == NatToBits(v / 2, n - 1);
    }
  }

  lemma Half(a: nat, p: nat, b: nat)
    ensures (a * (2 * p) + b) / 2 == a * p + b / 2
    ensures (a * (2 * p) + b) % 2 == b % 2
  {
    var x := a * p;
    assert a * (2 * p) == 2 * x;
  }

  /** A number put together from a high and a low part. */
  lemma {:induction false} JoinBits(a: nat, m: nat, b: nat, n: nat)
    requires b < P2(n)
    ensures a * P2(n) + b >= 0
    ensures NatToBits(a * P2(n) + b, m + n) == NatToBits(a, m) + NatToBits(b, n)
    decreases n
  {
    var v := a * P2(n) + b;
    if n > 0 {
      Half(a, P2(n - 1), b);
      JoinBits(a, m, b / 2, n - 1);
      var low := NatToBits(b / 2, n - 1);
      assert NatToBits(v, m + n) == (NatToBits(a, m) + low) + [b % 2];
      assert (NatToBits(a, m) + low) + [b % 2] == NatToBits(a, m) + (low + [b % 2]);
    } else {
      assert v == a;
    }
  }

  lemma DivMod(v: nat, p: nat)
    requires p > 0
    ensures 0 <= v / p && v == (v / p) * p + v % p && 0 <= v % p < p
  {
  }

  lemma DivUnique(n: nat, p: nat, q: nat, r: nat)
    requires p > 0 && n == q * p + r && r < p
    ensures n / p == q && n % p == r
  {
    var e := n / p - q;
    DivMod(n, p);
    assert e * p == r - n % p;
    assert e >= 1 ==> e * p >= p;
    assert e <= -1 ==> e * p + p <= 0;
  }

  lemma MulDiv(x: nat, p: nat)
    requires p > 0
    ensures x * p >= 0 && (x * p) / p == x && (x * p) % p == 0
  {
    DivUnique(x * p, p, x, 0);
  }

  /** The high bits alone, and the low bits alone. */
  lemma HighBits(v: nat, m: nat, n: nat)
    ensures v / P2(n) >= 0
    ensures NatToBits(v, m + n)[..m] == NatToBits(v / P2(n), m)
    ensures NatToBits(v, m + n)[m..] == NatToBits(v % P2(n), n)
  {
    var q, r := v / P2(n), v % P2(n);
    DivMod(v, P2(n));
    JoinBits(q, m, r, n);
    var hi, lo := NatToBits(q, m), NatToBits(r, n);
    assert (hi + lo)[..m] == hi && (hi + lo)[m..] == lo;
  }

  /** Bits above the requested ones do not matter. */
  lemma LowBits(v: nat, n: nat)
    ensures NatToBits(v % P2(n), n) == NatToBits(v, n)
  {
    HighBits(v, 0, n);
    assert NatToBits(v, 0 + n)[0..] == NatToBits(v, n);
  }

  function BytesToBits(bs: seq<byte>): (r: seq<bit>)
    ensures |r| == 8 * |bs|
  {
    if bs == [] then [] else BytesToBits(bs[..|bs| - 1]) + NatToBits(bs[|bs| - 1], 8)
  }

  lemma {:induction false} BytesToBitsAppend(a: seq<byte>, b: seq<byte>)
    ensures BytesToBits(a + b) == BytesToBits(a) + BytesToBits(b)
    decreases |b|
  {
    if b == [] {
      assert a + b == a && BytesToBits(a) + [] == BytesToBits(a);
    } else {
      var front := b[..|b| - 1];
      assert (a + b)[..|a + b| - 1] == a + front;
      BytesToBitsAppend(a, front);
      assert BytesToBits(a) + (BytesToBits(front) + NatToBits(b[|b| - 1], 8))
          == (BytesToBits(a) + BytesToBits(front)) + NatToBits(b[|b| - 1], 8);
    }
  }

  lemma BytesToBitsOne(b: byte)
    ensures BytesToBits([b]) == NatToBits(b, 8)
  {
    assert [b][..0] == [];
    assert [] + NatToBits(b, 8) == NatToBits(b, 8);
  }

  lemma TakeThrough<T>(a: seq<T>, b: seq<T>, c: seq<T>, k: nat)
    requires k <= |b|
    ensures (a + (b + c))[..|a| + k] == a + b[..k]
  {
  }

  lemma LeadingBitsOfParts(a: seq<byte>, b: seq<byte>, c: seq<byte>, k: nat)
    requires k <= 8 * |b|
    ensures BytesToBits(a + (b + c))[..8 * |a| + k] == BytesToBits(a) + BytesToBits(b)[..k]
  {
    BytesToBitsAppend(a, b + c);
    BytesToBitsAppend(b, c);
    TakeThrough(BytesToBits(a), BytesToBits(b), BytesToBits(c), k);
  }

  lemma Parts<T>(t: seq<T>, p: nat, q: nat)
    requires p <= q <= |t|
    ensures t == t[..p] + (t[p..q] + t[q..])
  {
  }

  /** The leading bits of an octet string: whole octets, then part of what follows. */
  lemma LeadingBits(t: seq<byte>, p: nat, nb: nat, k: nat, all: seq<bit>, whole: seq<bit>, next: seq<bit>)
    requires p + nb <= |t| && k <= 8 * nb
    requires all == BytesToBits(t) && whole == BytesToBits(t[..p]) && next == BytesToBits(t[p..p + nb])
    ensures all[..8 * p + k] == whole + next[..k]
  {
    Parts(t, p, p + nb);
    LeadingBitsOfParts(t[..p], t[p..p + nb], t[p + nb..], k);
  }

  lemma JoinOctet(q: nat, m: nat, r: byte)
    ensures NatToBits(q * 256 + r, m + 8) == NatToBits(q, m) + NatToBits(r, 8)
  {
    P2Of8();
    hide NatToBits, P2;
    JoinBits(q, m, r, 8);
  }

  lemma {:induction false} BitsOfToBytes(v: nat, n: nat)
    ensures BytesToBits(ToBytes(v, n)) == NatToBits(v, 8 * n)
    decreases n
  {
    hide NatToBits, P2, BytesToBits, ToBytes;
    if n == 0 {
      NoOctets(v);
    } else {
      var q, r := LastOctet(v, n);
      BitsOfToBytes(q, n - 1);
      BytesToBitsAppend(ToBytes(q, n - 1), [r]);
      BytesToBitsOne(r);
      JoinOctet(q, 8 * (n - 1), r);
    }
  }

  lemma NoOctets(v: nat)
    ensures BytesToBits(ToBytes(v, 0)) == NatToBits(v, 0) == []
  {
  }

  lemma LastOctet(v: nat, n: nat) returns (q: nat, r: byte)
    requires n > 0
    ensures v == q * 256 + r && ToBytes(v, n) == ToBytes(q, n - 1) + [r]
  {
    q, r := v / 256, v % 256;
  }

  lemma P2Of8()
    ensures P2(8) == 256
  {
    assert P2(4) == 16;
  }

  lemma {:induction false} UnsignedBits(bs: seq<byte>)
    ensures 0 <= Unsigned(bs) < P2(8 * |bs|)
    ensures BytesToBits(bs) == NatToBits(Unsigned(bs), 8 * |bs|)
    decreases |bs|
  {
    if bs != [] {
      var front, last := bs[..|bs| - 1], bs[|bs| - 1];
      UnsignedBits(front);
      UnsignedSnoc(front, last);
      assert bs == front + [last];
      hide NatToBits, P2, Fold, Unsigned;
      OctetJoined(Unsigned(front), 8 * |front|, last, BytesToBits(front));
    }
  }

  lemma OctetJoined(u: nat, m: nat, last: byte, bits: seq<bit>)
    requires u < P2(m) && bits == NatToBits(u, m)
    ensures u * 256 + last < P2(m + 8) && bits + NatToBits(last, 8) == NatToBits(u * 256 + last, m + 8)
  {
    hide NatToBits, P2;
    JoinOctet(u, m, last);
    OctetMore(u, m, last);
  }

  lemma OctetMore(u: nat, m: nat, last: byte)
    requires u < P2(m)
    ensures u * 256 + last < P2(m + 8)
  {
    P2Of8();
    hide P2;
    P2Add(m, 8);
  }

  lemma UnsignedSnoc(front: seq<byte>, last: byte)
    ensures Unsigned(front + [last]) == Unsigned(front) * 256 + last
  {
    FoldAppend(0, front, [last]);
    assert Fold(Unsigned(front), [last]) == Fold(Unsigned(front) * 256 + last, [last][1..]);
  }

  lemma SevenBits()
    ensures P2(7) == 128
  {
    P2Of8();
  }

  lemma {:induction false} P2Grows(m: nat, n: nat)
    requires m <= n
    ensures P2(m) <= P2(n)
    decreases n
  {
    if m < n { P2Grows(m, n - 1); }
  }

  lemma QuotientBound(x: nat, a: nat, p: nat)
    requires p > 0 && x < a * p
    ensures 0 <= x / p < a
  {
    DivMod(x, p);
    var q := x / p;
    assert q >= a ==> q * p >= a * p;
  }

  /** n bits that stand for a number below 2^n. */
  lemma ReadNumber(v: nat, n: nat, bits: seq<bit>)
    requires v < P2(n) && bits == NatToBits(v, n)
    ensures BitsToNat(bits) == v
  {
    NatBitsNat(v, n);
  }

  lemma FirstBit(all: seq<bit>)
    requires all != []
    ensures BitsToNat(all[..1]) == all[0]
  {
    assert all[..1][..0] == [];
  }

  /** n is a parameter, so that the solver does not unfold NatToBits by itself. */
  lemma OneBit(b: bit, n: nat)
    requires 0 < n < 2
    ensures NatToBits(b, n) == [b]
  {
    assert NatToBits(b, n) == NatToBits(b / 2, n - 1) + [b % 2];
  }
}
