/** INTEGER_t: contents octets on the heap, their conversion to and from machine words,
    their canonical DER form, and INTEGER_compare. */
module IntegerCodec {
  import opened Bytes

  type int64 = v: int | -0x8000_0000_0000_0000 <= v < 0x8000_0000_0000_0000
  type uint64 = v: int | 0 <= v < 0x1_0000_0000_0000_0000

  /** EINVAL and ERANGE are the two errno values of asn_INTEGER2imax and asn_INTEGER2umax. */
  datatype Conversion = Converted(value: int) | EINVAL | ERANGE

  /** The cast from uintmax_t to intmax_t. */
  function AsSigned(u: uint64): int64
  {
    if u < TWO_63 then u else u - TWO_64
  }

  /** The cast from long to unsigned long. */
  function AsUnsigned(v: int64): uint64 { if v < 0 then v + TWO_64 else v }

  /** (value << 8) | b on a 64-bit unsigned word. */
  function ShiftIn(value: uint64, b: byte): uint64
  {
    ModBound(value * 256, b);
    (value * 256) % TWO_64 + b
  }

  lemma ModBound(x: int, b: byte)
    requires x % 256 == 0
    ensures x % TWO_64 + b < TWO_64
  {
    var q := x / TWO_64;
    assert x == q * TWO_64 + x % TWO_64;
    assert TWO_64 == 256 * 0x100_0000_0000_0000;
    assert x % TWO_64 == 256 * (x / 256 - q * 0x100_0000_0000_0000);
  }

  lemma ShiftInIsFold(x: int, b: byte)
    ensures ShiftIn(x % TWO_64, b) == (x * 256 + b) % TWO_64
  {
    var q, r := x / TWO_64, x % TWO_64;
    assert x == q * TWO_64 + r;
    var q', r' := (r * 256) / TWO_64, (r * 256) % TWO_64;
    assert r * 256 == q' * TWO_64 + r';
    ModBound(r * 256, b);
    assert x * 256 + b == (q * 256 + q') * TWO_64 + (r' + b);
    ModOf(x * 256 + b, q * 256 + q', r' + b);
  }

  lemma ModOf(x: int, q: int, r: int)
    requires x == q * TWO_64 + r && 0 <= r < TWO_64
    ensures x % TWO_64 == r
  {
    var q0, r0 := x / TWO_64, x % TWO_64;
    assert x == q0 * TWO_64 + r0;
    assert (q0 - q) * TWO_64 == r - r0;
  }

  /** Where octet i, counted from the most significant, of an 8-octet word lies in memory. */
  function MemoryIndex(i: int, littleEndian: bool): int { if littleEndian then 7 - i else i }

  /** The memory (uint8_t *)&value points at. */
  method ObjectRepresentation(value: int64, littleEndian: bool) returns (mem: array<byte>)
    ensures fresh(mem) && mem.Length == 8
    ensures forall i :: 0 <= i < 8 ==> mem[MemoryIndex(i, littleEndian)] == ToBytes(value, 8)[i]
  {
    var rep := ToBytes(value, 8);
    mem := new byte[8](k requires 0 <= k < 8 => rep[MemoryIndex(k, littleEndian)]);
  }

  /** First loop of asn_imax2INTEGER: p walks from the most significant octet towards the least significant one. */
  method SkipSuperfluous(mem: array<byte>, littleEndian: bool, ghost rep: seq<byte>) returns (p: int, ghost i: nat)
    requires mem.Length == |rep| == 8
    requires forall k :: 0 <= k < 8 ==> mem[MemoryIndex(k, littleEndian)] == rep[k]
    ensures i <= 7 && p == MemoryIndex(i, littleEndian) && rep[i..] == Trim(rep)
  {
    var pend1, add := if littleEndian then 0 else 7, if littleEndian then -1 else 1;
    p, i := if littleEndian then 7 else 0, 0;
    while p != pend1
      invariant 0 <= i <= 7 && p == MemoryIndex(i, littleEndian)
      invariant Trim(rep) == Trim(rep[i..])
      decreases 7 - i
    {
      assert mem[MemoryIndex(i + 1, littleEndian)] == rep[i + 1];
      assert rep[i..][1..] == rep[i + 1..];
      if (mem[p] == 0 && mem[p + add] < 128) || (mem[p] == 255 && mem[p + add] >= 128) {
        p, i := p + add, i + 1;
        continue;
      }
      break;
    }
  }

  /** Second loop of asn_imax2INTEGER: the octets from p on go to a new buffer. */
  method CopyBody(mem: array<byte>, p0: int, littleEndian: bool, ghost rep: seq<byte>, ghost start: nat)
    returns (buf: array<byte>, bp: nat)
    requires mem.Length == |rep| == 8 && start <= 7 && p0 == MemoryIndex(start, littleEndian)
    requires forall k :: 0 <= k < 8 ==> mem[MemoryIndex(k, littleEndian)] == rep[k]
    ensures fresh(buf) && bp <= buf.Length && buf[..bp] == rep[start..]
  {
    var add := if littleEndian then -1 else 1;
    var pend1 := (if littleEndian then 0 else 7) + add;
    buf, bp := new byte[8], 0;
    var p := p0;
    while p != pend1
      invariant 0 <= bp <= 8 - start && p == MemoryIndex(start + bp, littleEndian)
      invariant buf[..bp] == rep[start..start + bp]
      decreases 8 - start - bp
    {
      buf[bp] := mem[p];
      bp, p := bp + 1, p + add;
    }
  }

  class Integer {
    var buf: array?<byte>
    var size: nat

    constructor ()
      ensures buf == null && size == 0
    {
      buf, size := null, 0;
    }

    predicate Valid()
      reads this
    {
      if buf == null then size == 0 else size <= buf.Length
    }

    function Contents(): seq<byte>
      requires Valid()
      reads this, buf
    {
      if buf == null then [] else buf[..size]
    }

    /** asn_imax2INTEGER */
    method FromImax(value: int64, littleEndian: bool)
      modifies this
      ensures Valid() && buf != null && fresh(buf)
      ensures Contents() == Encode64(value)
    {
      var mem := ObjectRepresentation(value, littleEndian);
      ghost var rep := ToBytes(value, 8);
      var p, i := SkipSuperfluous(mem, littleEndian, rep);
      buf, size := CopyBody(mem, p, littleEndian, rep, i);
    }

    /** asn_INTEGER2imax: exact for octet strings of any length. */
    method ToImax() returns (r: Conversion)
      requires Valid()
      ensures buf == null ==> r == EINVAL
      ensures buf != null && size == 0 ==> r == Converted(0)
      ensures buf != null && size > 0 ==>
                r == if FitsInt64(Signed(Contents())) then Converted(Signed(Contents())) else ERANGE
    {
      if buf == null { return EINVAL; }
      ghost var all := Contents();
      var b, end := 0, size;
      if size > 8 {
        var end1 := end - 1;
        while b < end1
          invariant 0 <= b <= end1
          invariant Trim(all) == Trim(all[b..])
        {
          assert all[b..][1..] == all[b + 1..];
          if (buf[b] == 0 && buf[b + 1] < 128) || (buf[b] == 255 && buf[b + 1] >= 128) {
            b := b + 1;
            continue;
          }
          break;
        }
        assert Trim(all[b..]) == all[b..];
        FitsExactly(all);
        TrimCorrect(all);
        if end - b > 8 { return ERANGE; }
      }
      if end == b { return Converted(0); }
      if size <= 8 {
        assert all[b..] == all;
        FitsExactly(all);
        TrimCorrect(all);
      }
      assert Contents()[b..end] == all[b..];
      var value := Convert(b, end);
      r := Converted(value);
    }

    /** asn_INTEGER2umax: the contents as an unsigned number, so that a negative one reads as a large one. */
    method ToUmax() returns (r: Conversion)
      requires Valid()
      ensures buf == null ==> r == EINVAL
      ensures buf != null ==>
                r == if Unsigned(Contents()) < TWO_64 then Converted(Unsigned(Contents())) else ERANGE
    {
      if buf == null { return EINVAL; }
      ghost var all := Contents();
      var b, left: int := 0, size;
      assert all[0..] == all;
      while left > 8
        invariant 0 <= b <= size && b + left == size && Unsigned(all[b..]) == Unsigned(all)
        decreases left
      {
        EightAreUnsigned(all[b..]);
        assert all[b..][1..] == all[b + 1..];
        if buf[b] != 0 { return ERANGE; }
        b, left := b + 1, left - 1;
      }
      EightAreUnsigned(all[b..]);
      var value: uint64 := 0;
      ghost var acc := 0;
      while b < size
        invariant 0 <= b <= size && value == acc % TWO_64
        invariant Fold(acc, all[b..]) == Unsigned(all)
      {
        assert all[b..][1..] == all[b + 1..];
        ShiftInIsFold(acc, buf[b]);
        value, acc := ShiftIn(value, buf[b]), acc * 256 + buf[b];
        b := b + 1;
      }
      r := Converted(value);
    }

    /** asn_uint642INTEGER */
    method FromUint64(value: uint64, littleEndian: bool)
      modifies this
      ensures Valid() && buf != null && fresh(buf)
      ensures Contents() == EncodeUnsigned64(value)
    {
      if value < TWO_63 {
        FromImax(value, littleEndian);
        return;
      }
      ghost var rep := ToBytes(value, 8);
      var fresh9 := new byte[9];
      fresh9[0] := 0;
      var b := 1;
      while b < 9
        invariant 1 <= b <= 9 && fresh9[0] == 0
        invariant forall k :: 1 <= k < b ==> fresh9[k] == rep[k - 1]
      {
        ToBytesAt(value, 8, b - 1);
        fresh9[b] := ShiftRight(value, 8 - b) % 256;
        b := b + 1;
      }
      buf, size := fresh9, 9;
      assert buf[..9] == [0] + rep;
    }

    /** asn__integer_convert: a 64-bit unsigned accumulator started at all ones for a negative number. */
    method Convert(b0: nat, end: nat) returns (r: int64)
      requires Valid() && buf != null && b0 < end <= size
      requires FitsInt64(Signed(Contents()[b0..end]))
      ensures r == Signed(Contents()[b0..end])
    {
      ghost var bs := buf[b0..end];
      assert Contents()[b0..end] == bs;
      var value: uint64 := if buf[b0] >= 128 then TWO_64 - 1 else 0;
      ghost var acc := SignOf(bs);
      var b := b0;
      while b < end
        invariant b0 <= b <= end
        invariant value == acc % TWO_64
        invariant Fold(acc, bs[b - b0..]) == Signed(bs)
      {
        assert bs[b - b0..][1..] == bs[b + 1 - b0..];
        ShiftInIsFold(acc, buf[b]);
        value, acc := ShiftIn(value, buf[b]), acc * 256 + buf[b];
        b := b + 1;
      }
      r := AsSigned(value);
    }

    /** The canonicalisation of INTEGER_encode_der: the octets handed to der_encode_primitive. */
    method DerContents() returns (effective: seq<byte>)
      requires Valid()
      ensures effective == Trim(Contents())
    {
      if buf == null { return []; }
      ghost var all := Contents();
      var b := 0;
      while b < size - 1
        invariant 0 <= b && (size > 0 ==> b <= size - 1) && (size == 0 ==> b == 0)
        invariant Trim(all) == Trim(all[b..])
        decreases size - b
      {
        assert all[b..][1..] == all[b + 1..];
        if (buf[b] == 0 && buf[b + 1] < 128) || (buf[b] == 255 && buf[b + 1] >= 128) {
          b := b + 1;
          continue;
        }
        break;
      }
      effective := buf[b..size];
      assert effective == all[b..];
    }
  }

  /** Printing a 64-bit value into contents octets and reading it back is the identity, and the
      octets are the only shortest ones. */
  lemma ImaxRoundTrip(value: int64, other: seq<byte>)
    ensures FitsInt64(Signed(Encode64(value))) && Signed(Encode64(value)) == value
    ensures Shortest(Encode64(value))
    ensures other != [] && Signed(other) == value ==>
              Trim(other) == Encode64(value) && (|other| <= |Encode64(value)| ==> other == Encode64(value))
  {
    Encode64Correct(value);
    if other != [] && Signed(other) == value {
      TrimCorrect(other);
      ShortestUnique(Trim(other), Encode64(value));
    }
  }

  /** memcmp reduced to its sign. */
  function Memcmp(a: seq<byte>, b: seq<byte>): int
    requires |a| == |b|
  {
    if a == [] then 0
    else if a[0] < b[0] then -1
    else if a[0] > b[0] then 1
    else Memcmp(a[1..], b[1..])
  }

  /** INTEGER_compare of two present INTEGERs. behind is the octet that a's buffer starts with when none of it counts. */
  function Compare(a: seq<byte>, b: seq<byte>, behind: byte): int
  {
    var signA: int := if (if a != [] then a[0] else behind) >= 128 then -1 else 1;
    if a != [] && b != [] then
      var signB: int := if b[0] >= 128 then -1 else 1;
      if signA < signB then -1
      else if signA > signB then 1
      else if |a| < |b| then -1 * signA
      else if |a| > |b| then 1 * signB
      else signA * Memcmp(a, b)
    else if a != [] then signA
    else if b != [] then -1 * signA
    else 0
  }

  function Sign(x: int): int { if x < 0 then -1 else if x > 0 then 1 else 0 }

  lemma {:induction false} FoldMonotone(i: int, a: seq<byte>, j: int, b: seq<byte>)
    requires |a| == |b| && i < j
    ensures Fold(i, a) < Fold(j, b)
    decreases |a|
  {
    if a != [] {
      FoldMonotone(i * 256 + a[0], a[1..], j * 256 + b[0], b[1..]);
    }
  }

  lemma {:induction false} MemcmpOrders(acc: int, a: seq<byte>, b: seq<byte>)
    requires |a| == |b|
    ensures Memcmp(a, b) == Sign(Fold(acc, a) - Fold(acc, b))
    decreases |a|
  {
    if a != [] {
      if a[0] < b[0] {
        FoldMonotone(acc * 256 + a[0], a[1..], acc * 256 + b[0], b[1..]);
      } else if a[0] > b[0] {
        FoldMonotone(acc * 256 + b[0], b[1..], acc * 256 + a[0], a[1..]);
      } else {
        MemcmpOrders(acc * 256 + a[0], a[1..], b[1..]);
      }
    }
  }

  /** The octet that only repeats the sign. */
  function SignOctet(s: seq<byte>): byte { if s != [] && s[0] >= 128 then 255 else 0 }

  /** The longer operand is no farther from zero than the shorter: it has only sign octets in front, and what follows
      them is no farther. */
  predicate PaddedNoFarther(short: seq<byte>, long: seq<byte>)
    requires |short| < |long|
  {
    var n := |long| - |short|;
    && (forall k :: 0 <= k < n ==> long[k] == SignOctet(long))
    && (if SignOctet(long) == 0 then Memcmp(short, long[n..]) >= 0 else Memcmp(short, long[n..]) <= 0)
  }

  lemma {:induction false} MemcmpPadded(e: seq<byte>, long: seq<byte>, n: nat, sign: byte)
    requires n <= |e| == |long| && (sign == 0 || sign == 255) && forall k :: 0 <= k < n ==> e[k] == sign
    ensures Memcmp(e, long) ==
              if forall k :: 0 <= k < n ==> long[k] == sign then Memcmp(e[n..], long[n..]) else if sign == 0 then -1 else 1
    decreases n
  {
    if n == 0 {
      assert e[0..] == e && long[0..] == long;
    } else if long[0] == sign {
      MemcmpPadded(e[1..], long[1..], n - 1, sign);
      assert e[1..][n - 1..] == e[n..] && long[1..][n - 1..] == long[n..];
      assert forall k :: 1 <= k < n ==> long[k] == long[1..][k - 1];
      assert forall k :: 0 <= k < n - 1 ==> long[1..][k] == long[k + 1];
    }
  }

  lemma LongerIsFartherExactly(short: seq<byte>, long: seq<byte>)
    requires short != [] && |short| < |long| && SignOf(short) == SignOf(long)
    ensures (if SignOf(short) == 0 then Signed(short) < Signed(long) else Signed(long) < Signed(short))
       <==> !PaddedNoFarther(short, long)
  {
    var n := |long| - |short|;
    var e := Extend(short, n);
    ExtendKeepsValue(short, n);
    assert SignOf(e) == SignOf(short) && SignOctet(long) == SignOctet(short);
    MemcmpOrders(SignOf(e), e, long);
    MemcmpPadded(e, long, n, SignOctet(long));
  }

  lemma SignDecides(a: seq<byte>, b: seq<byte>)
    requires a != [] && b != [] && a[0] >= 128 && b[0] < 128
    ensures Signed(a) < Signed(b)
  {
    NegativeFold(a);
    NonNegativeFold(0, b);
  }

  lemma {:induction false} NonNegativeFold(acc: int, b: seq<byte>)
    requires acc >= 0
    ensures Fold(acc, b) >= 0
    decreases |b|
  {
    if b != [] { NonNegativeFold(acc * 256 + b[0], b[1..]); }
  }

  lemma NegativeFold(a: seq<byte>)
    requires a != [] && a[0] >= 128
    ensures Signed(a) < 0
  {
    NegativeAccumulator(-1, a);
  }

  lemma {:induction false} NegativeAccumulator(acc: int, a: seq<byte>)
    requires acc < 0
    ensures Fold(acc, a) < 0
    decreases |a|
  {
    if a != [] { NegativeAccumulator(acc * 256 + a[0], a[1..]); }
  }

  predicate AllZero(s: seq<byte>) { forall i :: 0 <= i < |s| ==> s[i] == 0 }

  lemma {:induction false} FoldIsZero(bs: seq<byte>)
    ensures Fold(0, bs) == 0 <==> AllZero(bs)
  {
    if bs != [] {
      if bs[0] == 0 {
        FoldIsZero(bs[1..]);
        assert AllZero(bs) <==> AllZero(bs[1..]) by {
          assert forall i :: 1 <= i < |bs| ==> bs[i] == bs[1..][i - 1];
          assert forall i :: 0 <= i < |bs| - 1 ==> bs[1..][i] == bs[i + 1];
        }
      } else {
        FoldMonotone(0, bs[1..], bs[0], bs[1..]);
        NonNegativeFold(0, bs[1..]);
      }
    }
  }

  /** Where INTEGER_compare goes wrong. On operands of one sign: different negatives of one length, where the memcmp
      result is negated a second time, and a longer operand whose extra octets only repeat the sign. With one operand
      empty: a zero against it, and, when that is the first, what happens to lie in its buffer. */
  predicate Misordered(a: seq<byte>, b: seq<byte>, behind: byte)
  {
    if a != [] && b != [] then
      && SignOf(a) == SignOf(b)
      && if |a| == |b| then SignOf(a) < 0 && a != b
         else if |a| < |b| then PaddedNoFarther(a, b)
         else PaddedNoFarther(b, a)
    else if a != [] then AllZero(a)
    else if b != [] then AllZero(b) || (behind >= 128 <==> SignOf(b) == 0)
    else false
  }

  /** For any two operands INTEGER_compare is the numeric order, with no octets for 0, exactly when it does not go
      wrong so. */
  lemma CompareIsNumericExactly(a: seq<byte>, b: seq<byte>, behind: byte)
    ensures Compare(a, b, behind) == Sign(Signed(a) - Signed(b)) <==> !Misordered(a, b, behind)
  {
    if a == [] || b == [] {
      assert Signed([]) == 0;
      SignedSign(a);
      SignedSign(b);
    } else {
      BothPresent(a, b, behind);
    }
  }

  lemma SignedSign(s: seq<byte>)
    ensures s != [] ==> Sign(Signed(s)) == if s[0] >= 128 then -1 else if AllZero(s) then 0 else 1
  {
    if s != [] && s[0] >= 128 {
      NegativeFold(s);
    } else {
      NonNegativeFold(0, s);
      FoldIsZero(s);
    }
  }

  lemma BothPresent(a: seq<byte>, b: seq<byte>, behind: byte)
    requires a != [] && b != []
    ensures Compare(a, b, behind) == Sign(Signed(a) - Signed(b)) <==> !Misordered(a, b, behind)
  {
    hide PaddedNoFarther;
    if a[0] >= 128 && b[0] < 128 {
      SignDecides(a, b);
    } else if a[0] < 128 && b[0] >= 128 {
      SignDecides(b, a);
    } else if |a| < |b| {
      LongerIsFartherExactly(a, b);
    } else if |a| > |b| {
      LongerIsFartherExactly(b, a);
    } else {
      MemcmpOrders(SignOf(a), a, b);
      if Signed(a) == Signed(b) {
        FoldInjective(SignOf(a), a, SignOf(b), b);
      }
    }
  }

  /** Between shortest forms only the negatives of one length remain. */
  lemma ShortestMisordered(a: seq<byte>, b: seq<byte>, behind: byte)
    requires Shortest(a) && Shortest(b)
    ensures Misordered(a, b, behind) <==> SignOf(a) < 0 && SignOf(b) < 0 && |a| == |b| && a != b
  {
    if SignOf(a) == SignOf(b) && |a| < |b| {
      ShortestNotPadded(a, b);
    } else if SignOf(a) == SignOf(b) && |a| > |b| {
      ShortestNotPadded(b, a);
    }
  }

  lemma ShortestNotPadded(short: seq<byte>, long: seq<byte>)
    requires Shortest(long) && short != [] && |short| < |long| && SignOf(short) == SignOf(long)
    ensures !PaddedNoFarther(short, long)
  {
    var n := |long| - |short|;
    if n == 1 && long[0] == SignOctet(long) {
      assert long[1..][0] == long[1];
    }
  }

  /** -1 and -2 are encoded as FF and FE; INTEGER_compare says -1 < -2. */
  lemma CompareFailsOnNegatives()
    ensures Compare([0xFF], [0xFE], 0) == -1
    ensures Signed([0xFF]) == -1 && Signed([0xFE]) == -2
  {
    assert [0xFF][1..] == [] && [0xFE][1..] == [];
    assert Fold(-1, [0xFF]) == Fold(-1 * 256 + 0xFF, []);
    assert Fold(-1, [0xFE]) == Fold(-1 * 256 + 0xFE, []);
  }

  /** Two octets against one: INTEGER_compare says 1 > 2 when the 1 is written 00 01. */
  lemma CompareFailsOnPadding()
    ensures Compare([0, 1], [2], 0) == 1
    ensures Signed([0, 1]) == 1 && Signed([2]) == 2
  {
    assert [0, 1][1..] == [1] && [1][1..] == [] && [2][1..] == [];
    assert Fold(0, [0, 1]) == Fold(0, [1]) == Fold(1, []);
    assert Fold(0, [2]) == Fold(2, []);
  }
}
