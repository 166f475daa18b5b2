/** INTEGER_encode_aper and INTEGER_decode_aper for a constrained INTEGER, signed or field_unsigned: ITU-T X.691
    section 12.2.6, aligned variant. */
module AlignedPer {
  import opened Bytes
  import opened BitSeqs
  import opened Seqs
  import opened BitData
  import opened IntegerCodec

  /** asn_per_constraint_t with a range, and field_unsigned of the specifics; the flags that lead past the range test
      are not modelled. */
  datatype Constraint = Constraint(extensible: bool, rangeBits: nat, lb: int64, ub: int64, fieldUnsigned: bool)

  /** The bounds as the range test reads them. */
  function Lower(ct: Constraint): int { if ct.fieldUnsigned then AsUnsigned(ct.lb) else ct.lb }

  function Upper(ct: Constraint): int { if ct.fieldUnsigned then AsUnsigned(ct.ub) else ct.ub }

  /** range_bits as the ASN.1 compiler fills it in: wide enough, and no wider than a long. */
  predicate WellFormed(ct: Constraint)
  {
    ct.rangeBits <= 64 && Lower(ct) <= Upper(ct) && Upper(ct) - Lower(ct) < P2(ct.rangeBits)
  }

  /** A long, or an unsigned long. */
  predicate InWord(ct: Constraint, value: int)
  {
    if ct.fieldUnsigned then 0 <= value < TWO_64 else FitsInt64(value)
  }

  /** Unconstrained: the bit put or got says that the value is outside the range and goes on as an unconstrained one. */
  datatype Outcome = Done(value: int, used: nat) | Failed | Unconstrained

  // ----- length of the length, and of the value -----

  function MaxRangeBytes(rangeBits: nat): nat { rangeBits / 8 + if rangeBits % 8 > 0 then 1 else 0 }

  function LengthBits(rangeBits: nat): nat
  {
    var m := MaxRangeBytes(rangeBits);
    if m <= 2 then 1 else if m <= 4 then 2 else 3
  }

  /** Both loops on upper: the smallest i from 1 on such that 2^i >= max_range_bytes. */
  method LengthWidth(rangeBits: nat) returns (i: nat)
    requires 16 < rangeBits <= 64
    ensures i == LengthBits(rangeBits)
    ensures 1 <= i && P2(i) >= MaxRangeBytes(rangeBits)
    ensures i > 1 ==> P2(i - 1) < MaxRangeBytes(rangeBits)
  {
    var maxRangeBytes := rangeBits / 8 + if rangeBits % 8 > 0 then 1 else 0;
    i := 1;
    while true
      invariant 1 <= i <= 3 && (i > 1 ==> P2(i - 1) < maxRangeBytes)
      decreases 3 - i
    {
      var upper := P2(i);
      if upper >= maxRangeBytes { break; }
      i := i + 1;
    }
  }

  /** The index of the highest octet that is not zero, or 0. */
  function TopOctet(v: nat): nat { if v < 256 then 0 else 1 + TopOctet(v / 256) }

  lemma {:induction false} TopOctetIs(v: nat, j: nat)
    requires ShiftRight(v, j + 1) == 0 && (j > 0 ==> ShiftRight(v, j) != 0)
    ensures TopOctet(v) == j
    decreases j
  {
    if j > 0 {
      assert v / 256 > 0 by {
        if v / 256 == 0 { ShiftZero(j - 1); }
      }
      TopOctetIs(v / 256, j - 1);
    }
  }

  lemma {:induction false} ShiftZero(n: nat)
    ensures ShiftRight(0, n) == 0
  {
    if n > 0 { ShiftZero(n - 1); }
  }

  lemma {:induction false} TopOctetFits(v: nat, n: nat)
    requires n >= 1 && v < P2(8 * n)
    ensures TopOctet(v) < n && v < P2(8 * (TopOctet(v) + 1))
    decreases n
  {
    P2Of8();
    if v >= 256 {
      P2Add(8, 8 * n - 8);
      TopOctetFits(v / 256, n - 1);
      P2Add(8, 8 * TopOctet(v));
    }
  }

  lemma {:induction false} ShiftedOut(v: nat, n: nat)
    requires v < P2(8 * n)
    ensures ShiftRight(v, n) == 0
    decreases n
  {
    if n > 0 {
      P2Add(8, 8 * n - 8);
      P2Of8();
      ShiftedOut(v / 256, n - 1);
    }
  }

  /** for (j = sizeof(int64_t) - 1; j != 0; j--) over v64 >> (j * 8). */
  method HighestOctet(v: uint64) returns (j: nat)
    ensures j == TopOctet(v) && j <= 7
  {
    P2Of64();
    ShiftedOut(v, 8);
    j := 7;
    while j != 0
      invariant j <= 7 && ShiftRight(v, j + 1) == 0
      decreases j
    {
      var val := ShiftRight(v, j);
      if val != 0 { break; }
      j := j - 1;
    }
    TopOctetIs(v, j);
  }

  lemma P2Of64()
    ensures P2(64) == TWO_64
  {
    P2Of8();
    hide P2;
    P2Add(8, 8);
    P2Add(16, 16);
    P2Add(32, 32);
  }

  /** The length determinant always fits its field. */
  lemma LengthFits(rangeBits: nat, v: nat)
    requires 16 < rangeBits <= 64 && v < P2(rangeBits)
    ensures TopOctet(v) < P2(LengthBits(rangeBits)) && TopOctet(v) <= 7
  {
    var m := MaxRangeBytes(rangeBits);
    P2Grows(rangeBits, 8 * m);
    TopOctetFits(v, m);
    assert P2(1) == 2 && P2(2) == 4 && P2(3) == 8;
  }

  // ----- encoding -----

  /** The bits of offset v from the lower bound, when pos bits were put before. */
  function Field(pos: nat, rangeBits: nat, v: nat): seq<bit>
  {
    if rangeBits < 8 then NatToBits(v, rangeBits)
    else if rangeBits == 8 then Padding(pos) + NatToBits(v, 8)
    else if rangeBits <= 16 then Padding(pos) + NatToBits(v, 16)
    else
      var i, j := LengthBits(rangeBits), TopOctet(v);
      NatToBits(j, i) + (Padding(pos + i) + NatToBits(v, 8 * (j + 1)))
  }

  function Encoded(pos: nat, ct: Constraint, value: int): (r: seq<bit>)
    requires Lower(ct) <= value
  {
    var v := value - Lower(ct);
    if ct.extensible then [0] + Field(pos + 1, ct.rangeBits, v) else Field(pos, ct.rangeBits, v)
  }

  // ----- what the bits are: X.691 section 11.5.7 -----

  predicate AllZeros(bits: seq<bit>) { forall i :: 0 <= i < |bits| ==> bits[i] == 0 }

  /** Padding is zeros, fewer than eight, up to an octet boundary. */
  lemma PaddingExactly(pos: nat)
    ensures |Padding(pos)| < 8 && (pos + |Padding(pos)|) % 8 == 0 && AllZeros(Padding(pos))
  {
    ZerosOnly(PadBits(pos));
    hide NatToBits;
    EndsAtOctet(pos);
  }

  lemma EndsAtOctet(pos: nat)
    ensures PadBits(pos) < 8 && (pos + PadBits(pos)) % 8 == 0
  {
  }

  lemma {:induction false} ZerosOnly(n: nat)
    ensures AllZeros(NatToBits(0, n))
  {
    if n > 0 { ZerosOnly(n - 1); }
  }

  /** The bits are zeros as far as the next octet boundary, then v as a number of w bits. */
  predicate IsAligned(bits: seq<bit>, pos: nat, v: nat, w: nat)
  {
    exists pad :: 0 <= pad < 8 && IsPadded(bits, pos, v, w, pad)
  }

  predicate IsPadded(bits: seq<bit>, pos: nat, v: nat, w: nat, pad: nat)
  {
    |bits| == pad + w && (pos + pad) % 8 == 0 && AllZeros(bits[..pad]) && BitsToNat(bits[pad..]) == v
  }

  /** The field of offset v from the lower bound: up to 7 bits as they are, up to 8 in one aligned octet, up to 16 in
      two; beyond, a number one less than the count of octets, and then, aligned, v in the fewest octets there are. */
  lemma FieldExactly(pos: nat, rangeBits: nat, v: nat)
    requires rangeBits <= 64 && v < P2(rangeBits)
    ensures var f := Field(pos, rangeBits, v);
            && (rangeBits < 8 ==> |f| == rangeBits && BitsToNat(f) == v)
            && (rangeBits == 8 ==> IsAligned(f, pos, v, 8))
            && (8 < rangeBits <= 16 ==> IsAligned(f, pos, v, 16))
            && (rangeBits > 16 ==>
                  var i := if rangeBits <= 32 then 2 else 3;
                  exists count: nat :: FewestOctets(v, count) && i <= |f| && BitsToNat(f[..i]) == count - 1
                                    && IsAligned(f[i..], pos + i, v, 8 * count))
  {
    hide P2, NatToBits, BitsToNat, TopOctet;
    if rangeBits < 8 {
      NatBitsNat(v, rangeBits);
    } else if rangeBits <= 16 {
      var w := if rangeBits == 8 then 8 else 16;
      P2Grows(rangeBits, w);
      AlignedNumber(pos, v, w);
    } else {
      LongFieldExactly(pos, rangeBits, v);
    }
  }

  /** An extensible constraint puts a zero bit before the field. */
  lemma FlagThenField(pos: nat, ct: Constraint, value: int)
    requires Lower(ct) <= value
    ensures var bits, flag := Encoded(pos, ct, value), if ct.extensible then 1 else 0;
            && flag <= |bits| && (ct.extensible ==> bits[0] == 0)
            && bits[flag..] == Field(pos + flag, ct.rangeBits, value - Lower(ct))
  {
    hide Field;
  }

  /** v takes that many octets, and at least one. */
  predicate FewestOctets(v: nat, count: nat)
  {
    count >= 1 && v < Pow256(count) && (count == 1 || v >= Pow256(count - 1))
  }

  lemma AlignedNumber(pos: nat, v: nat, w: nat)
    requires v < P2(w)
    ensures IsAligned(Padding(pos) + NatToBits(v, w), pos, v, w)
  {
    hide P2, NatToBits, BitsToNat;
    PaddingExactly(pos);
    NatBitsNat(v, w);
    var pad, field := Padding(pos), NatToBits(v, w);
    TakeDrop(pad, field, []);
    assert IsPadded(pad + field, pos, v, w, |pad|);
  }

  lemma LongFieldExactly(pos: nat, rangeBits: nat, v: nat)
    requires 16 < rangeBits <= 64 && v < P2(rangeBits)
    ensures var f, i := Field(pos, rangeBits, v), if rangeBits <= 32 then 2 else 3;
            exists count: nat :: FewestOctets(v, count) && i <= |f| && BitsToNat(f[..i]) == count - 1
                              && IsAligned(f[i..], pos + i, v, 8 * count)
  {
    hide P2, NatToBits, BitsToNat, TopOctet, IsAligned, FewestOctets;
    var i, j := LengthBits(rangeBits), TopOctet(v);
    LengthFits(rangeBits, v);
    TopOctetIsFewest(v);
    P2Grows(rangeBits, 64);
    TopOctetFits(v, 8);
    NatBitsNat(j, i);
    AlignedNumber(pos + i, v, 8 * (j + 1));
    TakeDrop(NatToBits(j, i), Padding(pos + i) + NatToBits(v, 8 * (j + 1)), []);
  }

  lemma {:induction false} TopOctetIsFewest(v: nat)
    ensures FewestOctets(v, TopOctet(v) + 1)
  {
    if v >= 256 {
      TopOctetIsFewest(v / 256);
      var p := Pow256(TopOctet(v / 256) + 1);
      assert v / 256 < p ==> v < 256 * p;
      if TopOctet(v / 256) > 0 {
        assert v >= 256 * Pow256(TopOctet(v / 256));
      }
    }
  }

  // ----- decoding -----

  /** value += lower_bound on longs, and the cast for an unsigned field. */
  function PlusLowerBound(v: nat, ct: Constraint): (r: int)
    ensures InWord(ct, r)
  {
    var word: uint64 := (v + ct.lb) % TWO_64;
    if ct.fieldUnsigned then word else AsSigned(word)
  }

  /** The contents octets made of the value. A range of at most 16 bits goes through asn_ulong2INTEGER, which casts the
      unsigned number to a signed one. */
  function DecodedContents(ct: Constraint, value: int): seq<byte>
    requires InWord(ct, value)
  {
    if !ct.fieldUnsigned then Encode64(value)
    else if ct.rangeBits > 16 then EncodeUnsigned64(value)
    else Encode64(AsSigned(value))
  }

  function DecodedField(pos: nat, bits: seq<bit>, ct: Constraint): (r: Outcome)
    ensures !r.Unconstrained? && (r.Done? ==> r.used <= |bits| && InWord(ct, r.value))
  {
    if ct.rangeBits < 8 then
      if |bits| < ct.rangeBits then Failed
      else Done(PlusLowerBound(BitsToNat(bits[..ct.rangeBits]), ct), ct.rangeBits)
    else if ct.rangeBits <= 16 then
      var skip, w := PadBits(pos), if ct.rangeBits == 8 then 8 else 16;
      if |bits| < skip + w then Failed
      else Done(PlusLowerBound(BitsToNat(bits[skip..][..w]), ct), skip + w)
    else
      var i := LengthBits(ct.rangeBits);
      if |bits| < i then Failed
      else DecodedLong(i, BitsToNat(bits[..i]) + 1, PadBits(pos + i), bits[i..], ct)
  }

  /** After the length determinant: the padding must be zero, and len octets follow. */
  function DecodedLong(i: nat, len: nat, skip: nat, bits: seq<bit>, ct: Constraint): (r: Outcome)
    ensures !r.Unconstrained? && (r.Done? ==> r.used <= i + |bits| && InWord(ct, r.value))
  {
    if |bits| < skip + 8 * len || BitsToNat(bits[..skip]) != 0 then Failed
    else Done(PlusLowerBound(BitsToNat(bits[skip..][..8 * len]), ct), i + skip + 8 * len)
  }

  function Decoded(pos: nat, bits: seq<bit>, ct: Constraint): (r: Outcome)
    ensures r.Done? ==> InWord(ct, r.value)
  {
    if !ct.extensible then DecodedField(pos, bits, ct)
    else if bits == [] then Failed
    else if bits[0] == 1 then Unconstrained
    else
      var d := DecodedField(pos + 1, bits[1..], ct);
      if d.Done? then Done(d.value, d.used + 1) else d
  }

  /** The number a row of bits stands for, plus the lower bound, as a word of the field's kind. */
  predicate IsOffset(value: int, ct: Constraint, offset: nat)
  {
    InWord(ct, value) && (value - (ct.lb + offset)) % TWO_64 == 0
  }

  lemma PlusLowerBoundExactly(v: nat, ct: Constraint)
    ensures IsOffset(PlusLowerBound(v, ct), ct, v)
  {
  }

  /** What is read where the constraint is not extensible: in a range of at most 16 bits whatever follows the padding,
      which is not looked at; beyond, a count of octets, padding that must be zeros, and that many octets, whether or
      not fewer would do. */
  lemma ReadExactly(pos: nat, bits: seq<bit>, ct: Constraint)
    requires !ct.extensible
    ensures var d, pad := Decoded(pos, bits, ct), PadBits(pos);
            && !d.Unconstrained?
            && (ct.rangeBits < 8 ==>
                  && (d.Done? <==> |bits| >= ct.rangeBits)
                  && (d.Done? ==> d.used == ct.rangeBits && IsOffset(d.value, ct, BitsToNat(bits[..d.used]))))
            && (8 <= ct.rangeBits <= 16 ==>
                  var w := if ct.rangeBits == 8 then 8 else 16;
                  && (d.Done? <==> |bits| >= pad + w)
                  && (d.Done? ==> d.used == pad + w && IsOffset(d.value, ct, BitsToNat(bits[pad..][..w]))))
            && (ct.rangeBits > 16 ==> ReadsLong(d, LengthBits(ct.rangeBits), pos, bits, ct))
  {
    hide PlusLowerBound, BitsToNat, LengthBits, IsOffset, PadBits;
    if ct.rangeBits < 8 {
      if |bits| >= ct.rangeBits { PlusLowerBoundExactly(BitsToNat(bits[..ct.rangeBits]), ct); }
    } else if ct.rangeBits <= 16 {
      var pad, w := PadBits(pos), if ct.rangeBits == 8 then 8 else 16;
      if |bits| >= pad + w { PlusLowerBoundExactly(BitsToNat(bits[pad..][..w]), ct); }
    } else {
      ReadLongExactly(pos, bits, ct);
    }
  }

  predicate ReadsLong(d: Outcome, i: nat, pos: nat, bits: seq<bit>, ct: Constraint)
  {
    if |bits| < i then d.Failed?
    else
      var count, pad, rest := BitsToNat(bits[..i]) + 1, PadBits(pos + i), bits[i..];
      if |rest| >= pad + 8 * count && AllZeros(rest[..pad]) then
        d.Done? && d.used == i + pad + 8 * count && IsOffset(d.value, ct, BitsToNat(rest[pad..][..8 * count]))
      else d.Failed?
  }

  lemma ReadLongExactly(pos: nat, bits: seq<bit>, ct: Constraint)
    requires ct.rangeBits > 16 && !ct.extensible
    ensures ReadsLong(Decoded(pos, bits, ct), LengthBits(ct.rangeBits), pos, bits, ct)
  {
    hide PlusLowerBound, BitsToNat, LengthBits, IsOffset, PadBits, AllZeros;
    var i := LengthBits(ct.rangeBits);
    if |bits| >= i {
      var count, pad, rest := BitsToNat(bits[..i]) + 1, PadBits(pos + i), bits[i..];
      if |rest| >= pad + 8 * count {
        ZerosAreZero(rest[..pad]);
        PlusLowerBoundExactly(BitsToNat(rest[pad..][..8 * count]), ct);
      }
    }
  }

  lemma {:induction false} ZerosAreZero(bits: seq<bit>)
    ensures BitsToNat(bits) == 0 <==> AllZeros(bits)
  {
    if bits != [] {
      var front := bits[..|bits| - 1];
      ZerosAreZero(front);
      assert forall i :: 0 <= i < |front| ==> bits[i] == front[i];
    }
  }

  /** An extensible constraint is read behind one bit, which refuses nothing but says what follows. */
  lemma FlagRead(pos: nat, bits: seq<bit>, ct: Constraint)
    requires ct.extensible
    ensures var d, inner := Decoded(pos, bits, ct), ct.(extensible := false);
            && (bits == [] ==> d.Failed?)
            && (bits != [] && bits[0] == 1 ==> d.Unconstrained?)
            && (bits != [] && bits[0] == 0 ==>
                  var e := Decoded(pos + 1, bits[1..], inner);
                  (d.Done? <==> e.Done?) && (d.Done? ==> d == Done(e.value, e.used + 1)) && !d.Unconstrained?)
  {
    hide BitsToNat, LengthBits, PadBits;
  }

  // ----- round trip -----

  lemma BackFromOffset(value: int, ct: Constraint)
    requires InWord(ct, value) && Lower(ct) <= value
    ensures PlusLowerBound(value - Lower(ct), ct) == value
  {
  }

  /** The contents after decoding are those of the value, shortest, but for an unsigned value from 2^63 on in a range of
      at most 16 bits, which comes back negative. */
  lemma ContentsExactly(ct: Constraint, value: int)
    requires InWord(ct, value)
    ensures var c, wraps := DecodedContents(ct, value), ct.fieldUnsigned && ct.rangeBits <= 16 && value >= TWO_63;
            Shortest(c) && Signed(c) == if wraps then value - TWO_64 else value
  {
    if ct.fieldUnsigned && ct.rangeBits > 16 {
      EncodeUnsigned64Correct(value);
    } else {
      Encode64Correct(if ct.fieldUnsigned then AsSigned(value) else value);
    }
  }

  lemma ZeroBits(n: nat)
    ensures BitsToNat(NatToBits(0, n)) == 0
  {
    NatBitsNat(0, n);
  }

  lemma TakeDrop<T>(a: seq<T>, b: seq<T>, c: seq<T>)
    ensures (a + (b + c))[..|a|] == a && (a + (b + c))[|a|..] == b + c
    ensures ((a + b) + c)[|a|..][..|b|] == b
    ensures (a + b)[..|a|] == a && (a + b)[|a|..] == b && |a + b| == |a| + |b|
  {
  }

  lemma ShortRoundTrip(pos: nat, ct: Constraint, v: nat, rest: seq<bit>)
    requires ct.rangeBits <= 16 && v < P2(ct.rangeBits)
    ensures var f := Field(pos, ct.rangeBits, v);
            DecodedField(pos, f + rest, ct) == Done(PlusLowerBound(v, ct), |f|)
  {
    hide NatToBits, P2, BitsToNat, PlusLowerBound;
    if ct.rangeBits < 8 {
      NatBitsNat(v, ct.rangeBits);
      TakeDrop(NatToBits(v, ct.rangeBits), rest, []);
    } else {
      var w := if ct.rangeBits == 8 then 8 else 16;
      P2Grows(ct.rangeBits, w);
      NatBitsNat(v, w);
      TakeDrop(Padding(pos), NatToBits(v, w), rest);
    }
  }

  lemma LongRoundTrip(i: nat, len: nat, skip: nat, v: nat, rest: seq<bit>, ct: Constraint)
    requires v < P2(8 * len)
    ensures DecodedLong(i, len, skip, (NatToBits(0, skip) + NatToBits(v, 8 * len)) + rest, ct)
         == Done(PlusLowerBound(v, ct), i + skip + 8 * len)
  {
    hide NatToBits, P2, BitsToNat, PlusLowerBound;
    var zeros, field := NatToBits(0, skip), NatToBits(v, 8 * len);
    ZeroBits(skip);
    NatBitsNat(v, 8 * len);
    TakeDrop(zeros, field, rest);
    assert ((zeros + field) + rest)[..skip] == zeros;
  }

  lemma FieldRoundTrip(pos: nat, ct: Constraint, v: nat, rest: seq<bit>)
    requires ct.rangeBits <= 64 && v < P2(ct.rangeBits)
    ensures var f := Field(pos, ct.rangeBits, v);
            DecodedField(pos, f + rest, ct) == Done(PlusLowerBound(v, ct), |f|)
  {
    hide NatToBits, P2, BitsToNat, PlusLowerBound, DecodedLong;
    if ct.rangeBits <= 16 {
      ShortRoundTrip(pos, ct, v, rest);
    } else {
      var i, j := LengthBits(ct.rangeBits), TopOctet(v);
      LengthFits(ct.rangeBits, v);
      P2Grows(ct.rangeBits, 64);
      TopOctetFits(v, 8);
      NatBitsNat(j, i);
      var length, tail := NatToBits(j, i), Padding(pos + i) + NatToBits(v, 8 * (j + 1));
      assert (length + tail) + rest == length + (tail + rest);
      TakeDrop(length, tail, rest);
      LongRoundTrip(i, j + 1, PadBits(pos + i), v, rest, ct);
    }
  }

  /** From any bit offset, whatever follows: decoding finds the value and uses exactly the bits written; and the
      contents it leaves are the value's exactly when that is below 2^63, the range wider than 16 bits, or the field
      signed. */
  lemma RoundTrip(pos: nat, ct: Constraint, value: int, rest: seq<bit>)
    requires WellFormed(ct) && Lower(ct) <= value <= Upper(ct)
    ensures InWord(ct, value)
    ensures Decoded(pos, Encoded(pos, ct, value) + rest, ct) == Done(value, |Encoded(pos, ct, value)|)
    ensures Signed(DecodedContents(ct, value)) == value <==> value < TWO_63 || ct.rangeBits > 16 || !ct.fieldUnsigned
  {
    hide P2, Decoded, Encoded, DecodedContents, Signed;
    assert InWord(ct, value);
    ContentsExactly(ct, value);
    BitsRoundTrip(pos, ct, value, value - Lower(ct), rest);
  }

  lemma BitsRoundTrip(pos: nat, ct: Constraint, value: int, v: nat, rest: seq<bit>)
    requires ct.rangeBits <= 64 && InWord(ct, value) && v == value - Lower(ct) && v < P2(ct.rangeBits)
    ensures Decoded(pos, Encoded(pos, ct, value) + rest, ct) == Done(value, |Encoded(pos, ct, value)|)
  {
    hide P2, DecodedField, Field, PlusLowerBound, Lower, InWord;
    BackFromOffset(value, ct);
    if ct.extensible {
      var f := Field(pos + 1, ct.rangeBits, v);
      FieldRoundTrip(pos + 1, ct, v, rest);
      BitInFront(f, rest);
    } else {
      FieldRoundTrip(pos, ct, v, rest);
    }
  }

  lemma BitInFront(f: seq<bit>, rest: seq<bit>)
    ensures (([0] + f) + rest)[1..] == f + rest && (([0] + f) + rest)[0] == 0
  {
  }

  /** The range 2^63..2^63 takes no bits; asn_ulong2INTEGER makes -2^63 of its one value. */
  lemma UnsignedComesBackNegative(pos: nat, ct: Constraint, rest: seq<bit>)
    requires ct == Constraint(false, 0, -TWO_63, -TWO_63, true)
    ensures WellFormed(ct) && Lower(ct) == Upper(ct) == TWO_63
    ensures Decoded(pos, Encoded(pos, ct, TWO_63) + rest, ct) == Done(TWO_63, 0)
    ensures Signed(DecodedContents(ct, TWO_63)) == -TWO_63
  {
    assert P2(0) == 1;
    hide Decoded, Encoded, Signed;
    RoundTrip(pos, ct, TWO_63, rest);
    ContentsExactly(ct, TWO_63);
    NoBitsPut(pos, ct);
  }

  lemma NoBitsPut(pos: nat, ct: Constraint)
    requires !ct.extensible && ct.rangeBits == 0 && Lower(ct) == TWO_63
    ensures Encoded(pos, ct, TWO_63) == []
  {
  }

  // ----- the two methods -----

  /** What the encoder makes of the contents octets before it writes anything but the extension bit. */
  function Admission(ct: Constraint, contents: seq<byte>): (r: Outcome)
  {
    var value := if ct.fieldUnsigned then Unsigned(contents) else Signed(contents);
    if contents == [] || !InWord(ct, value) then Failed
    else if Lower(ct) <= value <= Upper(ct) then Done(value, 0)
    else if ct.extensible then Unconstrained
    else Failed
  }

  /** The number the contents stand for, by the kind of field. */
  function Number(ct: Constraint, contents: seq<byte>): int
  {
    if ct.fieldUnsigned then Unsigned(contents) else Signed(contents)
  }

  /** There are contents, and their number lies between the bounds, both included. */
  predicate Within(ct: Constraint, contents: seq<byte>)
  {
    && contents != []
    && (if ct.fieldUnsigned then AsUnsigned(ct.lb) <= Unsigned(contents) <= AsUnsigned(ct.ub)
        else ct.lb <= Signed(contents) <= ct.ub)
  }

  /** What is taken: a number within the bounds, as it is; a number outside that a word holds, when the constraint is
      extensible, as unconstrained; nothing else. */
  lemma AdmissionExactly(ct: Constraint, contents: seq<byte>)
    ensures Admission(ct, contents).Done? <==> Within(ct, contents)
    ensures Admission(ct, contents).Done? ==> Admission(ct, contents) == Done(Number(ct, contents), 0)
    ensures Admission(ct, contents).Unconstrained? <==>
              ct.extensible && contents != [] && !Within(ct, contents) && InWord(ct, Number(ct, contents))
  {
    hide Unsigned, Signed;
  }

  /** The round trip through the encoder: contents whose number lies within the bounds are taken, and what is put for
      them decodes to that number; and to contents of that number under the condition of RoundTrip. */
  lemma EncoderRoundTrip(pos: nat, ct: Constraint, contents: seq<byte>, rest: seq<bit>)
    requires WellFormed(ct) && Within(ct, contents)
    ensures var n := Number(ct, contents);
            && Admission(ct, contents) == Done(n, 0) && Lower(ct) <= n && InWord(ct, n)
            && Decoded(pos, Encoded(pos, ct, n) + rest, ct) == Done(n, |Encoded(pos, ct, n)|)
            && (Signed(DecodedContents(ct, n)) == n <==> n < TWO_63 || ct.rangeBits > 16 || !ct.fieldUnsigned)
  {
    hide Unsigned, Signed, Decoded, Encoded, DecodedContents;
    AdmissionExactly(ct, contents);
    RoundTrip(pos, ct, Number(ct, contents), rest);
  }

  lemma {:induction false} ShiftStep(v: int, n: nat)
    ensures ShiftRight(v, n + 1) == ShiftRight(v, n) / 256
    decreases n
  {
    if n > 0 {
      ShiftStep(v / 256, n - 1);
    }
  }

  lemma {:induction false} ShiftNat(v: nat, n: nat)
    ensures ShiftRight(v, n) >= 0
    decreases n
  {
    if n > 0 {
      ShiftNat(v / 256, n - 1);
    }
  }

  lemma OneMoreOctet(u: nat, k: nat)
    ensures NatToBits(u, 8 * k + 8) == NatToBits(u / 256, 8 * k) + NatToBits(u % 256, 8)
  {
    P2Of8();
    HighBits(u, 8 * k, 8);
  }

  /** Put the value: octets j down to 0 of v64. */
  method PutOctets(v: uint64, j: nat, po: BitOutput, accepts: bool) returns (ok: bool)
    requires po.Valid() && j <= 7 && ShiftRight(v, j + 1) == 0
    modifies po, po.tmpspace
    ensures po.Valid()
    ensures ok ==> po.Bits() == old(po.Bits()) + NatToBits(v, 8 * (j + 1))
    ensures accepts ==> ok
  {
    hide P2, NatToBits, BytesToBits, BitOutput.Bits, ShiftRight;
    ghost var start := po.Bits();
    var i := 0;
    PutNothing(start, 0);
    ShiftNone(v);
    while i <= j
      invariant 0 <= i <= j + 1 && po.Valid()
      invariant ShiftRight(v, j + 1 - i) >= 0 && po.Bits() == start + NatToBits(ShiftRight(v, j + 1 - i), 8 * i)
    {
      ShiftNat(v, j - i);
      ghost var u: nat, before := ShiftRight(v, j - i), po.Bits();
      var r := po.PutFewBits(ShiftRight(v, j - i) % 256, 8, accepts);
      if r != 0 { return false; }
      ShiftStep(v, j - i);
      OneMoreOctet(u, i);
      Associate(start, NatToBits(u / 256, 8 * i), NatToBits(u % 256, 8));
      i := i + 1;
    }
    ok := true;
  }

  lemma ShiftNone(v: int)
    ensures ShiftRight(v, 0) == v
  {
  }

  lemma PutNothing(start: seq<bit>, v: nat)
    ensures start == start + NatToBits(v, 0)
  {
  }

  /** The branch for a range of more than 16 bits. */
  method PutLong(v: uint64, rangeBits: nat, po: BitOutput, accepts: bool) returns (ok: bool)
    requires po.Valid() && 16 < rangeBits <= 64 && v < P2(rangeBits)
    modifies po, po.tmpspace
    ensures po.Valid()
    ensures ok ==> po.Bits() == old(po.Bits()) + Field(|old(po.Bits())|, rangeBits, v)
    ensures accepts ==> ok
  {
    hide P2, NatToBits, BytesToBits, BitOutput.Bits, LengthBits, MaxRangeBytes, TopOctet, Field, Padding;
    var i := LengthWidth(rangeBits);
    var j := HighestOctet(v);
    ghost var start, pos := po.Bits(), |po.Bits()|;
    LengthRange(rangeBits);
    ok := PutLength(j, i, po, accepts);
    if !ok { return; }
    TopOctetEnds(v, j, rangeBits);
    ok := PutOctets(v, j, po, accepts);
    LongField(start, pos, rangeBits, v);
  }

  lemma LongField(start: seq<bit>, pos: nat, rangeBits: nat, v: nat)
    requires rangeBits > 16
    ensures var i, j := LengthBits(rangeBits), TopOctet(v);
            ((start + NatToBits(j, i)) + Padding(pos + i)) + NatToBits(v, 8 * (j + 1)) == start + Field(pos, rangeBits, v)
  {
    hide NatToBits, LengthBits, TopOctet, Padding;
    var i, j := LengthBits(rangeBits), TopOctet(v);
    RegroupFour(start, NatToBits(j, i), Padding(pos + i), NatToBits(v, 8 * (j + 1)));
  }

  /** The length determinant, and up to the octet boundary. */
  method PutLength(j: nat, i: nat, po: BitOutput, accepts: bool) returns (ok: bool)
    requires po.Valid() && i <= 3
    modifies po, po.tmpspace
    ensures po.Valid()
    ensures ok ==> po.Bits() == (old(po.Bits()) + NatToBits(j, i)) + Padding(|old(po.Bits())| + i)
    ensures accepts ==> ok
  {
    hide P2, NatToBits, BytesToBits, BitOutput.Bits;
    var r := po.PutFewBits(j, i, accepts);
    if r != 0 { return false; }
    r := po.PutAlign(accepts);
    ok := r >= 0;
  }

  lemma RegroupFour(a: seq<bit>, b: seq<bit>, c: seq<bit>, d: seq<bit>)
    ensures ((a + b) + c) + d == a + (b + (c + d))
  {
  }

  lemma LengthRange(rangeBits: nat)
    ensures 1 <= LengthBits(rangeBits) <= 3
  {
  }

  lemma TopOctetEnds(v: uint64, j: nat, rangeBits: nat)
    requires rangeBits <= 64 && v < P2(rangeBits) && j == TopOctet(v)
    ensures ShiftRight(v, j + 1) == 0
  {
    P2Grows(rangeBits, 64);
    TopOctetFits(v, 8);
    ShiftedOut(v, j + 1);
  }

  /** A range of at most 16 bits. */
  method PutShort(v: uint64, rangeBits: nat, po: BitOutput, accepts: bool) returns (ok: bool)
    requires po.Valid() && rangeBits <= 16
    modifies po, po.tmpspace
    ensures po.Valid()
    ensures ok ==> po.Bits() == old(po.Bits()) + Field(|old(po.Bits())|, rangeBits, v)
    ensures accepts ==> ok
  {
    hide P2, NatToBits, BytesToBits, BitOutput.Bits;
    if rangeBits < 8 {
      var r := po.PutFewBits(v, rangeBits, accepts);
      ok := r == 0;
    } else {
      ghost var start := po.Bits();
      var r := po.PutAlign(accepts);
      if r < 0 { return false; }
      r := po.PutFewBits(v, if rangeBits == 8 then 8 else 16, accepts);
      ok := r == 0;
      Associate(start, Padding(|start|), NatToBits(v, if rangeBits == 8 then 8 else 16));
    }
  }

  lemma EightOrMore(contents: seq<byte>)
    ensures Unsigned(contents) >= 0
  {
    FoldRange(0, contents);
  }

  method EncodeAper(ct: Constraint, st: Integer, po: BitOutput, accepts: bool) returns (r: Outcome)
    requires WellFormed(ct) && st.Valid() && po.Valid()
    modifies po, po.tmpspace
    ensures po.Valid()
    ensures r.Done? ==> r == Admission(ct, old(st.Contents()))
    ensures r.Done? ==> po.Bits() == old(po.Bits()) + Encoded(|old(po.Bits())|, ct, r.value)
    ensures r.Unconstrained? ==> Admission(ct, old(st.Contents())).Unconstrained? && po.Bits() == old(po.Bits()) + [1]
    ensures accepts ==> (r.Failed? <==> Admission(ct, old(st.Contents())).Failed?)
    ensures r.Done? ==> Within(ct, old(st.Contents())) && r.value == Number(ct, old(st.Contents()))
    ensures accepts ==>
              && (r.Done? <==> Within(ct, old(st.Contents())))
              && (r.Unconstrained? <==>
                    && ct.extensible && old(st.Contents()) != [] && !Within(ct, old(st.Contents()))
                    && InWord(ct, Number(ct, old(st.Contents()))))
    ensures Admission(ct, old(st.Contents())).Failed? ==> r.Failed? && po.Bits() == old(po.Bits())
  {
    hide P2, BytesToBits, BitOutput.Bits, Field, Within, Number;
    AdmissionExactly(ct, st.Contents());
    if st.size == 0 { return Failed; }
    var conv;
    if ct.fieldUnsigned {
      EightOrMore(st.Contents());
      conv := st.ToUmax();
    } else {
      conv := st.ToImax();
    }
    if !conv.Converted? { return Failed; }
    var value := conv.value;
    var inext := if value < Lower(ct) || value > Upper(ct) then 1 else 0;
    ghost var start := po.Bits();
    if ct.extensible {
      var put := po.PutFewBits(inext, 1, accepts);
      if put != 0 { return Failed; }
      assert NatToBits(inext, 1) == [inext];
      if inext == 1 { return Unconstrained; }
    } else if inext == 1 {
      return Failed;
    }
    var v: uint64 := value - Lower(ct);
    ghost var before := po.Bits();
    var ok;
    if ct.rangeBits <= 16 {
      ok := PutShort(v, ct.rangeBits, po, accepts);
    } else {
      ok := PutLong(v, ct.rangeBits, po, accepts);
    }
    if !ok { return Failed; }
    ghost var f := Field(|before|, ct.rangeBits, v);
    Associate(start, [0], f);
    r := Done(value, 0);
  }

  /** One octet more: the number read so far and its bits. */
  lemma ReadStep(u: nat, k: nat, buf: nat, all: seq<bit>)
    requires 8 * k + 8 <= |all| && buf < 256 && u < P2(8 * k) && NatToBits(u, 8 * k) == all[..8 * k] && NatToBits(buf, 8) == all[8 * k..][..8]
    ensures u * 256 + buf < P2(8 * (k + 1)) && NatToBits(u * 256 + buf, 8 * (k + 1)) == all[..8 * (k + 1)]
  {
    P2Of8();
    P2Add(8 * k, 8);
    JoinedBound(u, P2(8 * k), buf, 256);
    JoinBits(u, 8 * k, buf, 8);
    assert all[..8 * k + 8] == all[..8 * k] + all[8 * k..][..8];
  }

  lemma WeightStep(u: nat, buf: nat, left: nat)
    ensures u * P2(8 * (left + 1)) + buf * P2(8 * left) == (u * 256 + buf) * P2(8 * left)
  {
    P2Of8();
    P2Add(8, 8 * left);
    Spread(u, buf, P2(8 * left));
  }

  lemma Spread(u: nat, buf: nat, p: nat)
    ensures u * (256 * p) + buf * p == (u * 256 + buf) * p
  {
  }

  /** while (length--) value += buf << (8 * length), without the final reduction to 64 bits. */
  method GetOctets(pd: BitInput, len: nat) returns (ok: bool, value: nat)
    requires pd.Valid()
    modifies pd
    ensures pd.Valid()
    ensures ok <==> 8 * len <= |old(pd.Remaining())|
    ensures ok ==> value == BitsToNat(old(pd.Remaining())[..8 * len])
    ensures ok ==> pd.Remaining() == old(pd.Remaining())[8 * len..]
    ensures ok ==> 8 * pd.buffer + pd.nboff == old(8 * pd.buffer + pd.nboff) + 8 * len
  {
    hide P2, NatToBits, BitsToNat, BitInput.Remaining;
    ghost var all, u, k := pd.Remaining(), 0, 0;
    var length: nat := len;
    value := 0;
    NoBits(all);
    while length != 0
      invariant pd.Valid() && k + length == len && 8 * k <= |all|
      invariant pd.Remaining() == all[8 * k..] && 8 * pd.buffer + pd.nboff == old(8 * pd.buffer + pd.nboff) + 8 * k
      invariant 0 <= u < P2(8 * k) && NatToBits(u, 8 * k) == all[..8 * k] && value == u * P2(8 * length)
      decreases length
    {
      length := length - 1;
      var buf := pd.GetFewBits(8);
      if buf < 0 { return false, 0; }
      P2Of8();
      WeightStep(u, buf, length);
      ReadStep(u, k, buf, all);
      DropDrop(all, 8 * k, 8);
      value := value + buf * P2(8 * length);
      u, k := u * 256 + buf, k + 1;
    }
    ok := true;
    ReadNumber(u, 8 * len, all[..8 * len]);
  }

  lemma NoBits(all: seq<bit>)
    ensures NatToBits(0, 8 * 0) == all[..8 * 0] && P2(0) == 1
  {
  }

  /** A range of 8 to 16 bits: one or two octets after alignment. */
  method GetAligned(pd: BitInput, w: nat) returns (value: int)
    requires pd.Valid() && w <= 16
    modifies pd
    ensures pd.Valid()
    ensures var skip, all := PadBits(old(8 * pd.buffer + pd.nboff)), old(pd.Remaining());
            && (value >= 0 <==> skip + w <= |all|)
            && (value >= 0 ==> value == BitsToNat(all[skip..][..w]) && pd.Remaining() == all[skip + w..])
  {
    hide P2, NatToBits, BitsToNat, BitInput.Remaining, PadBits;
    ghost var all, skip := pd.Remaining(), PadBits(8 * pd.buffer + pd.nboff);
    var r := pd.GetAlign();
    value := pd.GetNumber(w);
    if value >= 0 { DropDrop(all, skip, w); }
  }

  /** A range of more than 16 bits. */
  method GetLong(pd: BitInput, rangeBits: nat) returns (ok: bool, value: nat)
    requires pd.Valid() && 16 < rangeBits <= 64
    modifies pd
    ensures pd.Valid()
    ensures LongResult(ok, value, old(8 * pd.buffer + pd.nboff), LengthBits(rangeBits), old(pd.Remaining()), pd.Remaining())
  {
    hide P2, NatToBits, BitsToNat, BitInput.Remaining, LengthBits, MaxRangeBytes, PadBits;
    ghost var all, pos := pd.Remaining(), 8 * pd.buffer + pd.nboff;
    var i := LengthWidth(rangeBits);
    LengthRange(rangeBits);
    var length := pd.GetNumber(i);
    if length < 0 { return false, 0; }
    ghost var bits, skip := pd.Remaining(), PadBits(pos + i);
    var padding := pd.GetAlign();
    ReadNumber(padding, skip, bits[..skip]);
    if padding != 0 { return false, 0; }
    ok, value := GetOctets(pd, length + 1);
    if ok { DropThrice(all, i, skip, 8 * (length + 1)); }
  }

  lemma DropThrice(all: seq<bit>, i: nat, skip: nat, n: nat)
    requires i + skip + n <= |all|
    ensures all[i..][skip..][n..] == all[i + skip + n..]
  {
    DropDrop(all[i..], skip, n);
    DropDrop(all, i, skip + n);
  }

  /** What reading a length of i bits, zero padding and that many octets gives. */
  predicate LongResult(ok: bool, value: nat, pos: nat, i: nat, all: seq<bit>, rest: seq<bit>)
  {
    if |all| < i then !ok
    else
      var len, skip, bits := BitsToNat(all[..i]) + 1, PadBits(pos + i), all[i..];
      if |bits| < skip + 8 * len || BitsToNat(bits[..skip]) != 0 then !ok
      else ok && value == BitsToNat(bits[skip..][..8 * len]) && rest == all[i + skip + 8 * len..]
  }

  method GetField(ct: Constraint, pd: BitInput) returns (ok: bool, value: int)
    requires ct.rangeBits <= 64 && pd.Valid()
    modifies pd
    ensures pd.Valid()
    ensures var d := DecodedField(old(8 * pd.buffer + pd.nboff), old(pd.Remaining()), ct);
            && ok == d.Done? && !d.Unconstrained?
            && (ok ==> value == d.value && pd.Remaining() == old(pd.Remaining())[d.used..])
  {
    hide P2, BitsToNat, BitInput.Remaining, PlusLowerBound, LengthBits, MaxRangeBytes, PadBits;
    if ct.rangeBits > 16 {
      var v;
      ok, v := GetLong(pd, ct.rangeBits);
      return ok, if ok then PlusLowerBound(v, ct) else 0;
    }
    var v;
    if ct.rangeBits < 8 {
      v := pd.GetNumber(ct.rangeBits);
    } else {
      v := GetAligned(pd, if ct.rangeBits == 8 then 8 else 16);
    }
    return v >= 0, if v >= 0 then PlusLowerBound(v, ct) else 0;
  }

  /** The contents octets are those that the value's conversion gives. */
  method DecodeAper(ct: Constraint, st: Integer, pd: BitInput, littleEndian: bool) returns (r: Outcome)
    requires ct.rangeBits <= 64 && pd.Valid()
    modifies pd, st
    ensures pd.Valid()
    ensures var d, all := Decoded(old(8 * pd.buffer + pd.nboff), old(pd.Remaining()), ct), old(pd.Remaining());
            && (d.Failed? ==> r.Failed?)
            && (d.Unconstrained? ==> r.Unconstrained? && pd.Remaining() == all[1..])
            && (d.Done? ==> r == Done(d.value, 0) && pd.Remaining() == all[d.used..])
            && (d.Done? ==> st.Valid() && st.Contents() == DecodedContents(ct, d.value))
  {
    hide P2, BitsToNat, BitInput.Remaining, DecodedField;
    ghost var all := pd.Remaining();
    if ct.extensible {
      var inext := pd.GetNumber(1);
      if inext < 0 { return Failed; }
      FirstBit(all);
      if inext != 0 { return Unconstrained; }
    }
    ghost var used := if ct.extensible then 1 else 0;
    ghost var bits := pd.Remaining();
    ghost var d := DecodedField(8 * pd.buffer + pd.nboff, bits, ct);
    var ok, value := GetField(ct, pd);
    if !ok { return Failed; }
    if ct.extensible { DropDrop(all, 1, d.used); }
    if ct.fieldUnsigned && ct.rangeBits > 16 {
      st.FromUint64(value, littleEndian);
    } else {
      st.FromImax(if ct.fieldUnsigned then AsSigned(value) else value, littleEndian);
    }
    r := Done(value, 0);
  }
}
