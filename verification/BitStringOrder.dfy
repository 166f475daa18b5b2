/** BIT_STRING_compare and the compaction before it: ITU-T X.680 section 22.7 lets values differ in
    trailing zero bits without differing in meaning. */
module BitStringOrder {
  import opened Bytes
  import IntegerCodec

  // ----- bits of octets -----

  /** Bit k of an octet, counted from the most significant. */
  function Mask(k: nat): bv8
    requires k < 8
  {
    if k == 0 then 0x80 else if k == 1 then 0x40 else if k == 2 then 0x20 else if k == 3 then 0x10
    else if k == 4 then 0x08 else if k == 5 then 0x04 else if k == 6 then 0x02 else 0x01
  }

  predicate OctetBit(x: bv8, k: nat)
    requires k < 8
  {
    x & Mask(k) != 0
  }

  /** The bits of an octet string, with zeros without end after them: the binary digits after the point. */
  predicate BitAt(octets: seq<bv8>, i: nat)
  {
    i / 8 < |octets| && OctetBit(octets[i / 8], i % 8)
  }

  /** The first difference of two fractions is at bit k, where a has 0 and b has 1. */
  ghost predicate BelowAt(a: seq<bv8>, b: seq<bv8>, k: nat)
  {
    !BitAt(a, k) && BitAt(b, k) && forall i: nat :: i < k ==> BitAt(a, i) == BitAt(b, i)
  }

  /** The order of the binary fractions 0.b0b1b2... */
  ghost predicate Less(a: seq<bv8>, b: seq<bv8>) { exists k: nat :: BelowAt(a, b, k) }

  ghost predicate Same(a: seq<bv8>, b: seq<bv8>) { forall i: nat :: BitAt(a, i) == BitAt(b, i) }

  lemma LessIrreflexive(a: seq<bv8>, b: seq<bv8>)
    requires Less(a, b)
    ensures !Less(b, a) && !Same(a, b) && !Same(b, a)
  {
    var k: nat :| BelowAt(a, b, k);
    assert BitAt(a, k) != BitAt(b, k);
    forall m: nat ensures !BelowAt(b, a, m) {
    }
  }

  lemma LessTransitive(a: seq<bv8>, b: seq<bv8>, c: seq<bv8>)
    requires (Less(a, b) || Same(a, b)) && (Less(b, c) || Same(b, c))
    ensures if Same(a, b) && Same(b, c) then Same(a, c) else Less(a, c)
  {
    if Same(a, b) && Same(b, c) {
    } else if Same(a, b) {
      var k: nat :| BelowAt(b, c, k);
      assert BelowAt(a, c, k);
    } else if Same(b, c) {
      var k: nat :| BelowAt(a, b, k);
      assert BelowAt(a, c, k);
    } else {
      var k: nat :| BelowAt(a, b, k);
      var m: nat :| BelowAt(b, c, m);
      assert BelowAt(a, c, if k < m then k else m);
    }
  }

  // ----- compaction -----

  /** The lowest set bit has number unused, counted from the least significant. */
  predicate LowestSet(x: bv8, unused: nat)
  {
    unused < 8 && OctetBit(x, 7 - unused) && forall k :: 7 - unused < k < 8 ==> !OctetBit(x, k)
  }

  /** v &= -v and the three mask tests. */
  method LowestSetBit(b: bv8) returns (unused: nat)
    requires b != 0
    ensures LowestSet(b, unused)
  {
    unused := 7;
    var v := b & (0 - b);
    if v & 0x0F != 0 { unused := unused - 4; }
    if v & 0x33 != 0 { unused := unused - 2; }
    if v & 0x55 != 0 { unused := unused - 1; }
    LowestBitCases(b, v);
  }

  /** b & -b is the lowest set bit alone. */
  lemma LowestBitCases(b: bv8, v: bv8)
    requires b != 0 && v == b & (0 - b)
    ensures v == 0x80 || v == 0x40 || v == 0x20 || v == 0x10 || v == 0x08 || v == 0x04 || v == 0x02 || v == 0x01
    ensures b & v == v
    ensures v == 0x80 ==> b & 0x7F == 0
    ensures v == 0x40 ==> b & 0x3F == 0
    ensures v == 0x20 ==> b & 0x1F == 0
    ensures v == 0x10 ==> b & 0x0F == 0
    ensures v == 0x08 ==> b & 0x07 == 0
    ensures v == 0x04 ==> b & 0x03 == 0
    ensures v == 0x02 ==> b & 0x01 == 0
  {
  }

  /** tmp: the octets without trailing zero octets, and the zero bits at the end of the last one. */
  datatype Compact = Compact(size: nat, unused: nat)

  ghost predicate IsCompact(octets: seq<bv8>, c: Compact)
  {
    && c.size <= |octets|
    && (forall i :: c.size <= i < |octets| ==> octets[i] == 0)
    && (c.size == 0 ==> c.unused == 0)
    && (c.size > 0 ==> LowestSet(octets[c.size - 1], c.unused))
  }

  /** BIT_STRING__compactify */
  method Compactify(octets: seq<bv8>) returns (c: Compact)
    ensures IsCompact(octets, c)
  {
    if |octets| == 0 { return Compact(0, 0); }
    var b := |octets| - 1;
    while b > 0 && octets[b] == 0
      invariant 0 <= b < |octets|
      invariant forall i :: b < i < |octets| ==> octets[i] == 0
    {
      b := b - 1;
    }
    if octets[b] != 0 {
      var unused := LowestSetBit(octets[b]);
      c := Compact(b + 1, unused);
    } else {
      c := Compact(b, 0);
    }
  }

  /** The compact form ends right after the last one bit. */
  lemma CompactEndsInOne(octets: seq<bv8>, c: Compact)
    requires IsCompact(octets, c)
    ensures c.size > 0 ==> c.unused < 8 && BitAt(octets, 8 * c.size - c.unused - 1)
    ensures forall i: nat :: i >= 8 * c.size - c.unused ==> !BitAt(octets, i)
  {
    if c.size > 0 {
      var last := 8 * c.size - c.unused - 1;
      assert last / 8 == c.size - 1 && last % 8 == 7 - c.unused;
    }
    forall i: nat | i >= 8 * c.size - c.unused ensures !BitAt(octets, i) {
      if i / 8 < c.size {
        assert i / 8 == c.size - 1 && i % 8 > 7 - c.unused;
      } else if i / 8 < |octets| {
        assert octets[i / 8] == 0;
        ZeroOctet(i % 8);
      }
    }
  }

  lemma ZeroOctet(k: nat)
    requires k < 8
    ensures !OctetBit(0, k)
  {
  }

  // ----- comparison -----

  /** memcmp, reduced to its sign. */
  function Memcmp(a: seq<bv8>, b: seq<bv8>): (r: int)
    requires |a| == |b|
    ensures r == 0 <==> a == b
  {
    if a == [] then 0
    else if a[0] < b[0] then -1
    else if a[0] > b[0] then 1
    else
      var r := Memcmp(a[1..], b[1..]);
      assert a == [a[0]] + a[1..] && b == [b[0]] + b[1..];
      r
  }

  lemma {:induction false} MemcmpFirst(a: seq<bv8>, b: seq<bv8>) returns (i: nat)
    requires |a| == |b| && Memcmp(a, b) != 0
    ensures i < |a| && a[..i] == b[..i] && (if Memcmp(a, b) < 0 then a[i] < b[i] else b[i] < a[i])
  {
    if a[0] != b[0] {
      i := 0;
    } else {
      var j := MemcmpFirst(a[1..], b[1..]);
      i := j + 1;
      SamePrefix(a, b, j);
    }
  }

  lemma SamePrefix(a: seq<bv8>, b: seq<bv8>, j: nat)
    requires |a| == |b| && j < |a| && a[0] == b[0] && a[1..][..j] == b[1..][..j]
    ensures a[..j + 1] == b[..j + 1]
  {
    assert a[..j + 1] == [a[0]] + a[1..][..j] && b[..j + 1] == [b[0]] + b[1..][..j];
  }

  /** Of two octets the smaller one has a zero at the first bit where they differ. */
  lemma OctetOrder(x: bv8, y: bv8) returns (k: nat)
    requires x < y
    ensures k < 8 && !OctetBit(x, k) && OctetBit(y, k)
    ensures forall j :: 0 <= j < k ==> OctetBit(x, j) == OctetBit(y, j)
  {
    var d := x ^ y;
    k := if d & 0x80 != 0 then 0 else if d & 0x40 != 0 then 1 else if d & 0x20 != 0 then 2 else if d & 0x10 != 0 then 3
         else if d & 0x08 != 0 then 4 else if d & 0x04 != 0 then 5 else if d & 0x02 != 0 then 6 else 7;
  }

  lemma OctetsBelow(a: seq<bv8>, b: seq<bv8>, i: nat)
    requires i < |a| && i < |b| && a[..i] == b[..i] && a[i] < b[i]
    ensures Less(a, b)
  {
    var k := OctetOrder(a[i], b[i]);
    var at := 8 * i + k;
    assert at / 8 == i && at % 8 == k;
    forall j: nat | j < at ensures BitAt(a, j) == BitAt(b, j) {
      if j / 8 < i {
        assert a[..i][j / 8] == b[..i][j / 8];
      } else {
        assert j / 8 == i && j % 8 < k;
      }
    }
    assert BelowAt(a, b, at);
  }

  /** The first one bit of b from position lo on. */
  lemma FirstOne(b: seq<bv8>, lo: nat, at: nat) returns (k: nat)
    requires lo <= at && BitAt(b, at)
    ensures lo <= k <= at && BitAt(b, k) && forall i: nat :: lo <= i < k ==> !BitAt(b, i)
    decreases at - lo
  {
    if BitAt(b, lo) {
      k := lo;
    } else {
      k := FirstOne(b, lo + 1, at);
    }
  }

  /** A string that ends, but for zeros, within the other, is below it when the other has a one after that. */
  lemma ShorterBelow(a: seq<bv8>, b: seq<bv8>, n: nat, at: nat)
    requires n <= |a| && n <= |b| && a[..n] == b[..n]
    requires (forall i: nat :: i >= 8 * n ==> !BitAt(a, i)) && at >= 8 * n && BitAt(b, at)
    ensures Less(a, b)
  {
    var k := FirstOne(b, 8 * n, at);
    forall j: nat | j < k ensures BitAt(a, j) == BitAt(b, j) {
      if j / 8 < n {
        assert a[..n][j / 8] == b[..n][j / 8];
      }
    }
    assert BelowAt(a, b, k);
  }

  lemma EqualPrefix(a: seq<bv8>, b: seq<bv8>, n: nat)
    requires n <= |a| && n <= |b| && a[..n] == b[..n]
    requires forall i: nat :: i >= 8 * n ==> !BitAt(a, i) && !BitAt(b, i)
    ensures Same(a, b)
  {
    forall i: nat ensures BitAt(a, i) == BitAt(b, i) {
      if i / 8 < n {
        assert a[..n][i / 8] == b[..n][i / 8];
      }
    }
  }

  /** BIT_STRING_compare of two present strings. The test on bits_unused never decides: with equal octets it finds
      equal numbers. */
  method Compare(a: seq<bv8>, b: seq<bv8>) returns (r: int)
    ensures r < 0 <==> Less(a, b)
    ensures r > 0 <==> Less(b, a)
    ensures r == 0 <==> Same(a, b)
  {
    var compactA := Compactify(a);
    var compactB := Compactify(b);
    var n := if compactA.size <= compactB.size then compactA.size else compactB.size;
    var ret := Memcmp(a[..n], b[..n]);
    CompareCases(a, b, compactA, compactB, n);
    if ret == 0 {
      if compactA.size < compactB.size { return -1; }
      if compactA.size > compactB.size { return 1; }
      if compactA.unused > compactB.unused { return -1; }
      if compactA.unused < compactB.unused { return 1; }
      return 0;
    }
    return ret;
  }

  lemma CompareCases(a: seq<bv8>, b: seq<bv8>, ca: Compact, cb: Compact, n: nat)
    requires IsCompact(a, ca) && IsCompact(b, cb) && n == if ca.size <= cb.size then ca.size else cb.size
    ensures var ret := Memcmp(a[..n], b[..n]);
            && (ret == 0 && ca.size == cb.size ==> ca.unused == cb.unused && Same(a, b))
            && (ret < 0 || (ret == 0 && ca.size < cb.size) ==> Less(a, b))
            && (ret > 0 || (ret == 0 && ca.size > cb.size) ==> Less(b, a))
            && (Less(a, b) ==> !Less(b, a) && !Same(a, b)) && (Less(b, a) ==> !Same(a, b))
  {
    hide LowestSet, BitAt, Less, Same, BelowAt, Memcmp, OctetBit, Mask;
    var ret := Memcmp(a[..n], b[..n]);
    if ret < 0 {
      PrefixDecides(a, b, n);
    } else if ret > 0 {
      MemcmpSwap(a[..n], b[..n]);
      PrefixDecides(b, a, n);
    } else {
      CompactEndsInOne(a, ca);
      CompactEndsInOne(b, cb);
      if ca.size < cb.size {
        ShorterBelow(a, b, n, 8 * cb.size - cb.unused - 1);
      } else if ca.size > cb.size {
        ShorterBelow(b, a, n, 8 * ca.size - ca.unused - 1);
      } else {
        EqualPrefix(a, b, n);
        if n > 0 {
          assert a[n - 1] == a[..n][n - 1] == b[..n][n - 1] == b[n - 1];
          LowestSetUnique(a[n - 1], ca.unused, cb.unused);
        }
      }
    }
    if Less(a, b) { LessIrreflexive(a, b); }
    if Less(b, a) { LessIrreflexive(b, a); }
  }

  lemma {:induction false} MemcmpSwap(a: seq<bv8>, b: seq<bv8>)
    requires |a| == |b|
    ensures Memcmp(b, a) == -Memcmp(a, b)
  {
    if a != [] && a[0] == b[0] { MemcmpSwap(a[1..], b[1..]); }
  }

  lemma PrefixDecides(a: seq<bv8>, b: seq<bv8>, n: nat)
    requires n <= |a| && n <= |b| && Memcmp(a[..n], b[..n]) < 0
    ensures Less(a, b)
  {
    hide Less, Memcmp;
    var i := MemcmpFirst(a[..n], b[..n]);
    assert a[..i] == a[..n][..i] && b[..i] == b[..n][..i];
    OctetsBelow(a, b, i);
  }

  lemma LowestSetUnique(x: bv8, u: nat, w: nat)
    requires LowestSet(x, u) && LowestSet(x, w)
    ensures u == w
  {
  }

  // ----- the order as an order of numbers -----

  function AsBytes(s: seq<bv8>): (r: seq<byte>)
    ensures |r| == |s|
  {
    seq(|s|, i requires 0 <= i < |s| => s[i] as int)
  }

  function Padded(s: seq<bv8>, n: nat): (r: seq<bv8>)
    requires |s| <= n
    ensures |r| == n
  {
    s + seq(n - |s|, _ => 0)
  }

  lemma PaddedBits(s: seq<bv8>, n: nat, i: nat)
    requires |s| <= n
    ensures BitAt(Padded(s, n), i) == BitAt(s, i)
  {
    ZeroOctet(i % 8);
  }

  lemma OctetNumbers(x: bv8, y: bv8)
    ensures x < y <==> x as int < y as int
    ensures x == y <==> x as int == y as int
  {
  }

  lemma {:induction false} MemcmpOfBytes(a: seq<bv8>, b: seq<bv8>)
    requires |a| == |b|
    ensures Memcmp(a, b) == IntegerCodec.Memcmp(AsBytes(a), AsBytes(b))
  {
    if a != [] {
      OctetNumbers(a[0], b[0]);
      OctetNumbers(b[0], a[0]);
      assert AsBytes(a)[1..] == AsBytes(a[1..]) && AsBytes(b)[1..] == AsBytes(b[1..]);
      MemcmpOfBytes(a[1..], b[1..]);
    }
  }

  /** The order is that of the numbers the octets stand for, filled up with zeros behind to any common length. */
  lemma LessIsNumeric(a: seq<bv8>, b: seq<bv8>, n: nat)
    requires |a| <= n && |b| <= n
    ensures Less(a, b) <==> Unsigned(AsBytes(Padded(a, n))) < Unsigned(AsBytes(Padded(b, n)))
    ensures Same(a, b) <==> Unsigned(AsBytes(Padded(a, n))) == Unsigned(AsBytes(Padded(b, n)))
  {
    hide Memcmp, AsBytes, Padded, Less, Same, Fold;
    var p, q := Padded(a, n), Padded(b, n);
    MemcmpOfBytes(p, q);
    IntegerCodec.MemcmpOrders(0, AsBytes(p), AsBytes(q));
    SignOfMemcmp(p, q);
    PaddingUnseen(a, b, n);
  }

  lemma PaddingUnseen(a: seq<bv8>, b: seq<bv8>, n: nat)
    requires |a| <= n && |b| <= n
    ensures Less(a, b) <==> Less(Padded(a, n), Padded(b, n))
    ensures Same(a, b) <==> Same(Padded(a, n), Padded(b, n))
  {
    hide BitAt, Padded;
    forall i: nat ensures BitAt(Padded(a, n), i) == BitAt(a, i) && BitAt(Padded(b, n), i) == BitAt(b, i) {
      PaddedBits(a, n, i);
      PaddedBits(b, n, i);
    }
    assert forall k: nat :: BelowAt(a, b, k) <==> BelowAt(Padded(a, n), Padded(b, n), k);
  }

  lemma SignOfMemcmp(p: seq<bv8>, q: seq<bv8>)
    requires |p| == |q|
    ensures (Memcmp(p, q) < 0 <==> Less(p, q)) && (Memcmp(p, q) == 0 <==> Same(p, q))
  {
    hide Memcmp, Less, BitAt;
    var n := |p|;
    assert p[..n] == p && q[..n] == q;
    if Memcmp(p, q) < 0 {
      PrefixDecides(p, q, n);
      LessIrreflexive(p, q);
    } else if Memcmp(p, q) > 0 {
      MemcmpSwap(p, q);
      PrefixDecides(q, p, n);
      LessIrreflexive(q, p);
    } else if Less(p, q) {
      LessIrreflexive(p, q);
    }
  }

  // ----- bit strings -----

  /** bits_unused says how many bits of the last octet are not part of the value; Clean: they are zero. */
  datatype BitString = BitString(octets: seq<bv8>, unused: nat)

  function Length(s: BitString): int { 8 * |s.octets| - s.unused }

  ghost predicate Clean(s: BitString)
  {
    s.unused <= 7 && Length(s) >= 0 && forall i: nat :: i >= Length(s) ==> !BitAt(s.octets, i)
  }

  /** The strings agree on their common length, and what is left of the longer one is zeros. */
  ghost predicate DifferInTrailingZeros(s: BitString, t: BitString)
  {
    var n := if Length(s) <= Length(t) then Length(s) else Length(t);
    && (forall i: nat :: i < n ==> BitAt(s.octets, i) == BitAt(t.octets, i))
    && (forall i: nat :: n <= i < Length(s) ==> !BitAt(s.octets, i))
    && (forall i: nat :: n <= i < Length(t) ==> !BitAt(t.octets, i))
  }

  /** Strings compare as equal exactly when they differ at most in trailing zero bits. */
  lemma EqualMeansTrailingZeros(s: BitString, t: BitString)
    requires Clean(s) && Clean(t)
    ensures Same(s.octets, t.octets) <==> DifferInTrailingZeros(s, t)
  {
    var n := if Length(s) <= Length(t) then Length(s) else Length(t);
    if Same(s.octets, t.octets) {
      forall i: nat | n <= i ensures !BitAt(s.octets, i) && !BitAt(t.octets, i) {
        assert BitAt(s.octets, i) == BitAt(t.octets, i);
      }
    }
    if DifferInTrailingZeros(s, t) {
      forall i: nat ensures BitAt(s.octets, i) == BitAt(t.octets, i) {
      }
    }
  }
}
