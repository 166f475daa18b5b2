/** asn_bit_outp_t and asn_bit_data_t: bit output through a 32-octet window and bit input over octets,
    refining "append n bits" and "take n bits". */
module BitData {
  import opened Bytes
  import opened BitSeqs
  import opened Seqs

  // ----- output -----

  /** The o leading bits of an octet, as a number. */
  function Head(b: byte, o: nat): (r: nat)
    requires o <= 7
  {
    DivMod(b, P2(8 - o));
    b / P2(8 - o)
  }

  /** buf[0] & omsk: the o leading bits of an octet, the others cleared. */
  function Kept(b: byte, o: nat): (r: byte)
    requires o <= 7
  {
    KeptBound(b, o);
    Times(Head(b, o), P2(8 - o))
  }

  function Times(x: nat, y: nat): nat { x * y }

  /** The o bits already in octet b followed by obits new ones. */
  function Joined(b: byte, o: nat, value: nat, obits: nat): (r: nat)
    requires o <= 7
  {
    Times(Head(b, o), P2(obits)) + value
  }

  /** The octets left at the window position, as one number: those bits, then zeros. */
  function Merged(b: byte, o: nat, value: nat, obits: nat, rest: nat): (r: nat)
    requires o <= 7
  {
    Times(Joined(b, o, value, obits), P2(rest))
  }

  function Partial(t: seq<byte>, p: nat, o: nat): (r: seq<bit>)
    requires o <= 7 && (o > 0 ==> p < |t|)
    ensures |r| == o
  {
    if o == 0 then [] else NatToBits(Head(t[p], o), o)
  }

  /** The n leading bits of an octet string: whole octets, then the head of the next. */
  function Front(t: seq<byte>, n: nat): (r: seq<bit>)
    requires n <= 8 * |t|
    ensures |r| == n
  {
    BytesToBits(t[..n / 8]) + Partial(t, n / 8, n % 8)
  }

  lemma FrontIsPrefix(t: seq<byte>, n: nat, all: seq<bit>)
    requires n <= 8 * |t| && all == BytesToBits(t)
    ensures Front(t, n) == all[..n]
  {
    hide BytesToBits, NatToBits, Head, Partial, Front;
    PrefixAt(t, n / 8, n % 8, n, all);
  }

  lemma PrefixAt(t: seq<byte>, p: nat, o: nat, n: nat, all: seq<bit>)
    requires n == 8 * p + o <= 8 * |t| && o <= 7 && all == BytesToBits(t)
    ensures Front(t, n) == all[..n]
  {
    hide BytesToBits, NatToBits, Head, Partial, Front;
    var whole, rest := BytesToBits(t[..p]), BytesToBits(t[p..]);
    assert t == t[..p] + t[p..];
    BytesToBitsAppend(t[..p], t[p..]);
    PartialOf(t, p, o, rest);
    FrontParts(t, p, o, n, whole, Partial(t, p, o));
    PrefixOfSum(whole, rest, o);
  }

  lemma PartialOf(t: seq<byte>, p: nat, o: nat, rest: seq<bit>)
    requires p <= |t| && o <= 7 && (o > 0 ==> p < |t|) && rest == BytesToBits(t[p..])
    ensures Partial(t, p, o) == rest[..o]
  {
    hide BytesToBits, NatToBits, Head;
    if o > 0 {
      HeadBits(t[p..], o, rest);
    }
  }

  lemma HeadBits(t: seq<byte>, o: nat, all: seq<bit>)
    requires 1 <= o <= 7 && t != [] && all == BytesToBits(t)
    ensures all[..o] == NatToBits(Head(t[0], o), o)
  {
    hide BytesToBits, NatToBits, P2;
    assert t == [t[0]] + t[1..];
    BytesToBitsAppend([t[0]], t[1..]);
    BytesToBitsOne(t[0]);
    HighBits(t[0], o, 8 - o);
    PrefixOfFirst(BytesToBits([t[0]]), BytesToBits(t[1..]), o);
  }

  lemma PrefixOfFirst<T>(a: seq<T>, b: seq<T>, k: nat)
    requires k <= |a|
    ensures (a + b)[..k] == a[..k]
  {
  }

  lemma PrefixOfSum<T>(a: seq<T>, b: seq<T>, k: nat)
    requires k <= |b|
    ensures (a + b)[..|a| + k] == a + b[..k]
  {
  }

  lemma TakeAcross<T>(a: seq<T>, m: seq<T>, t: seq<T>, q: nat)
    requires |a| + |m| <= |t| && t[..|a|] == a && t[|a|..|a| + |m|] == m && q <= |m|
    ensures t[..|a| + q] == a + m[..q] && (q < |m| ==> t[|a| + q] == m[q])
  {
    assert forall k :: 0 <= k < q ==> t[|a| + k] == m[k];
  }

  lemma FrontParts(t: seq<byte>, p: nat, o: nat, n: nat, whole: seq<bit>, part: seq<bit>)
    requires n == 8 * p + o <= 8 * |t| && o <= 7
    requires whole == BytesToBits(t[..p]) && part == Partial(t, p, o)
    ensures Front(t, n) == whole + part
  {
    hide BytesToBits, Partial;
    assert n / 8 == p && n % 8 == o;
  }

  /** The front of a string that starts with a, then m. */
  lemma FrontAppend(a: seq<byte>, m: seq<byte>, t: seq<byte>, n: nat)
    requires n <= 8 * |m| && |a| + |m| <= |t| && t[..|a|] == a && t[|a|..|a| + |m|] == m
    ensures Front(t, 8 * |a| + n) == BytesToBits(a) + Front(m, n)
  {
    hide BytesToBits, NatToBits, Head, Front, Partial;
    FrontAppendAt(a, m, t, n / 8, n % 8, 8 * |a| + n, n);
  }

  lemma FrontAppendAt(a: seq<byte>, m: seq<byte>, t: seq<byte>, q: nat, o: nat, k: nat, n: nat)
    requires n == 8 * q + o <= 8 * |m| && o <= 7 && k == 8 * |a| + n
    requires |a| + |m| <= |t| && t[..|a|] == a && t[|a|..|a| + |m|] == m
    ensures Front(t, k) == BytesToBits(a) + Front(m, n)
  {
    hide BytesToBits, NatToBits, Head, Front, Partial;
    var p := |a| + q;
    TakeAcross(a, m, t, q);
    assert o > 0 ==> q < |m|;
    SamePartial(t, p, m, q, o);
    FrontJoin(a, m, m[..q], t, t[..p], q, p, o, k, n, BytesToBits(a), BytesToBits(m[..q]), Partial(m, q, o));
  }

  lemma FrontJoin(a: seq<byte>, m: seq<byte>, mq: seq<byte>, t: seq<byte>, tp: seq<byte>, q: nat, p: nat, o: nat,
                  k: nat, n: nat, ba: seq<bit>, bq: seq<bit>, part: seq<bit>)
    requires n == 8 * q + o <= 8 * |m| && o <= 7 && k == 8 * p + o <= 8 * |t|
    requires mq == m[..q] && tp == t[..p] && tp == a + mq
    requires ba == BytesToBits(a) && bq == BytesToBits(mq) && part == Partial(m, q, o) && part == Partial(t, p, o)
    ensures Front(t, k) == ba + Front(m, n)
  {
    hide BytesToBits, NatToBits, Head, Front, Partial;
    BitsOfSum(a, mq, tp, ba, bq, BytesToBits(tp));
    FrontParts(m, q, o, n, bq, part);
    FrontParts(t, p, o, k, ba + bq, part);
    Associate(ba, bq, part);
  }

  lemma BitsOfSum(a: seq<byte>, b: seq<byte>, ab: seq<byte>, ba: seq<bit>, bb: seq<bit>, bab: seq<bit>)
    requires ab == a + b && ba == BytesToBits(a) && bb == BytesToBits(b) && bab == BytesToBits(ab)
    ensures bab == ba + bb
  {
    BytesToBitsAppend(a, b);
  }

  lemma SamePartial(t: seq<byte>, p: nat, t': seq<byte>, p': nat, o: nat)
    requires o <= 7 && (o > 0 ==> p < |t| && p' < |t'| && t[p] == t'[p'])
    ensures Partial(t, p, o) == Partial(t', p', o)
  {
    hide NatToBits, Head;
  }

  lemma FrontOfNumber(joined: nat, n: nat, rest: nat, nb: nat, m: seq<byte>)
    requires n + rest == 8 * nb && m == ToBytes(Times(joined, P2(rest)), nb)
    ensures Front(m, n) == NatToBits(joined, n)
  {
    BitsOfToBytes(Times(joined, P2(rest)), nb);
    HighBits(Times(joined, P2(rest)), n, rest);
    MulDiv(joined, P2(rest));
    FrontIsPrefix(m, n, BytesToBits(m));
  }

  lemma FrontOfOne(b: byte, o: nat)
    requires o <= 7
    ensures Front([b], o) == NatToBits(Head(b, o), o)
  {
    assert [b][..0] == [];
  }

  /** The merged octets at the window position: what was there, then the new bits. */
  lemma FrontOfMerged(b: byte, o: nat, value: nat, obits: nat, rest: nat, nb: nat, m: seq<byte>)
    requires o <= 7 && o + obits + rest == 8 * nb && value < P2(obits) && m == ToBytes(Merged(b, o, value, obits, rest), nb)
    ensures Front(m, o + obits) == Front([b], o) + NatToBits(value, obits)
  {
    hide BytesToBits, NatToBits, P2, Front, ToBytes;
    FrontOfNumber(Joined(b, o, value, obits), o + obits, rest, nb, m);
    FrontOfOne(b, o);
    JoinBits(Head(b, o), o, value, obits);
  }

  lemma WindowAppends(t: seq<byte>, t': seq<byte>, p: nat, o: nat, value: nat, obits: nat, rest: nat, nb: nat, m: seq<byte>)
    requires o <= 7 && 1 <= nb && o + obits + rest == 8 * nb && value < P2(obits)
    requires |t| == |t'| && p + nb <= |t| && t'[..p] == t[..p] && t'[p..p + nb] == m
    requires m == ToBytes(Merged(t[p], o, value, obits, rest), nb)
    ensures Front(t', 8 * p + (o + obits)) == Front(t, 8 * p + o) + NatToBits(value, obits)
  {
    hide BytesToBits, NatToBits, P2, Front, ToBytes, Merged;
    FrontOfMerged(t[p], o, value, obits, rest, nb, m);
    FrontAppend(t[..p], m, t', o + obits);
    assert t[p..p + 1] == [t[p]];
    FrontAppend(t[..p], [t[p]], t, o);
    Associate(BytesToBits(t[..p]), Front([t[p]], o), NatToBits(value, obits));
  }

  /** Moving the p complete octets of the window to the sink leaves the bits as they are. */
  lemma FlushKeepsBits(s: seq<byte>, t: seq<byte>, t': seq<byte>, p: nat, o: nat)
    requires p <= |t| == |t'| && o <= 7 && (o > 0 ==> p < |t| && t'[0] == t[p])
    ensures BytesToBits(s + t[..p]) + Front(t', o) == BytesToBits(s) + Front(t, 8 * p + o)
  {
    BytesToBitsAppend(s, t[..p]);
    assert t'[..0] == [] && [] + Partial(t', 0, o) == Partial(t', 0, o);
    assert (8 * p + o) / 8 == p && (8 * p + o) % 8 == o;
    Associate(BytesToBits(s), BytesToBits(t[..p]), Partial(t, p, o));
  }

  /** Clearing what follows the o leading bits of octet p fills the last octet with zero bits. */
  lemma PaddedFront(t: seq<byte>, p: nat, o: nat, u: seq<byte>)
    requires 1 <= o <= 7 && p < |t| && u == t[..p] + [Kept(t[p], o)]
    ensures BytesToBits(u) == Front(t, 8 * p + o) + NatToBits(0, 8 - o)
  {
    hide BytesToBits, NatToBits, P2, Head, Front;
    FrontAt(t, p, o);
    var whole := BytesToBits(t[..p]);
    BytesToBitsAppend(t[..p], [Kept(t[p], o)]);
    BytesToBitsOne(Kept(t[p], o));
    JoinBits(Head(t[p], o), o, 0, 8 - o);
    Associate(whole, Partial(t, p, o), NatToBits(0, 8 - o));
  }

  lemma FrontAt(t: seq<byte>, p: nat, o: nat)
    requires o < 8 && 8 * p + o <= 8 * |t|
    ensures p <= |t| && (o > 0 ==> p < |t|) && Front(t, 8 * p + o) == BytesToBits(t[..p]) + Partial(t, p, o)
  {
    hide BytesToBits;
    WholeAndRest(p, o);
  }

  lemma WholeAndRest(p: nat, o: nat)
    requires o < 8
    ensures (8 * p + o) / 8 == p && (8 * p + o) % 8 == o
  {
  }

  lemma WholeFront(t: seq<byte>, p: nat)
    requires p <= |t|
    ensures BytesToBits(t[..p]) == Front(t, 8 * p) + NatToBits(0, 0)
  {
    assert (8 * p) / 8 == p && (8 * p) % 8 == 0;
    Associate(BytesToBits(t[..p]), [], []);
  }

  lemma TimesAssociate(a: nat, b: nat, c: nat)
    ensures a * b >= 0 && b * c >= 0 && (a * b) * c == a * (b * c)
  {
  }

  lemma AddTimes(a: nat, b: nat, c: nat)
    ensures (a + b) * c == a * c + b * c
  {
  }

  lemma Distribute(head: nat, po: nat, value: nat, pr: nat, pk: nat, pn: nat)
    requires po * pr == pk * pn && value < po && pr > 0
    ensures head * po >= 0 && head * pk >= 0 && (head * po + value) * pr == (head * pk) * pn + value * pr
    ensures 0 <= value * pr < po * pr
  {
    TimesAssociate(head, po, pr);
    TimesAssociate(head, pk, pn);
    var x := head * po;
    AddTimes(x, value, pr);
    AddTimes(value, po - value, pr);
    Positive(po - value, pr);
  }

  lemma Positive(a: nat, b: nat)
    requires a > 0 && b > 0
    ensures a * b > 0
  {
  }

  lemma HeadBound(head: nat, p: nat, q: nat, b: byte)
    requires q * p == 256 && p > 0 && head == b / p
    ensures head * p + p <= 256
  {
    QuotientBound(b, q, p);
    AddTimes(head, 1, p);
    AddTimes(head + 1, q - head - 1, p);
  }

  lemma KeptBound(b: byte, o: nat)
    requires o <= 7
    ensures Times(Head(b, o), P2(8 - o)) + P2(8 - o) <= 256
  {
    P2Add(o, 8 - o);
    P2Of8();
    HeadBound(Head(b, o), P2(8 - o), P2(o), b);
  }

  /** The kept bits and the shifted new ones do not overlap, so that | is + on them. */
  lemma MergedIsSum(b: byte, o: nat, value: nat, obits: nat, rest: nat, nb: nat, shifted: nat)
    requires o <= 7 && 1 <= nb && o + obits + rest == 8 * nb && value < P2(obits) && shifted == value * P2(rest)
    ensures shifted < P2(8 - o) * P2(8 * nb - 8)
    ensures Merged(b, o, value, obits, rest) == Kept(b, o) * P2(8 * nb - 8) + shifted
  {
    P2Add(obits, rest);
    P2Add(8 - o, 8 * nb - 8);
    Distribute(Head(b, o), P2(obits), value, P2(rest), P2(8 - o), P2(8 * nb - 8));
  }

  /** The stored octets are the merged number. */
  lemma MergedOctets(b: byte, o: nat, value: nat, obits: nat, rest: nat, nb: nat, shifted: nat)
    requires o <= 7 && 1 <= nb <= 4 && o + obits + rest == 8 * nb && value < P2(obits) && shifted == value * P2(rest)
    ensures Kept(b, o) + Leading(shifted, nb) < 256
    ensures Octets(Kept(b, o), shifted, nb) == ToBytes(Merged(b, o, value, obits, rest), nb)
  {
    hide P2, ToBytes, Octets, Head;
    MergedIsSum(b, o, value, obits, rest, nb, shifted);
    KeptBound(b, o);
    LeadingIs(shifted, nb);
    QuotientBound(shifted, P2(8 - o), P2(8 * nb - 8));
    OctetsAreToBytes(Kept(b, o), shifted, nb);
  }

  /** asn_bit_outp_t. sink is everything handed to the output callback. */
  class BitOutput {
    const tmpspace: array<byte>
    var buffer: nat
    var nboff: nat
    var nbits: nat
    var flushedBytes: nat
    var sink: seq<byte>

    constructor ()
      ensures Valid() && fresh(tmpspace) && Bits() == []
    {
      tmpspace := new byte[32](_ => 0);
      buffer, nboff, nbits := 0, 0, 8 * 32;
      flushedBytes, sink := 0, [];
    }

    predicate Valid()
      reads this
    {
      tmpspace.Length == 32 && buffer <= 32 && nbits == 8 * (32 - buffer) && nboff <= nbits && flushedBytes == |sink|
    }

    /** Every bit put so far, flushed or not. */
    function Bits(): (r: seq<bit>)
      requires Valid()
      reads this, tmpspace
      ensures |r| == 8 * |sink| + 8 * buffer + nboff
    {
      BytesToBits(sink) + Front(tmpspace[..], 8 * buffer + nboff)
    }

    /** Whole octets of the bit offset become part of the buffer position. */
    method Normalize()
      requires Valid()
      modifies this`buffer, this`nbits, this`nboff
      ensures Valid() && nboff <= 7 && 8 * buffer + nboff == old(8 * buffer + nboff)
      ensures Bits() == old(Bits())
    {
      if nboff >= 8 {
        buffer := buffer + nboff / 8;
        nbits := nbits - (nboff - nboff % 8);
        nboff := nboff % 8;
      }
    }

    /** Room for n more bits without a flush. */
    predicate Room(n: nat)
      reads this
    {
      8 * buffer + nboff + n <= 8 * 32
    }

    /** When the request exceeds the room, the complete octets go to the sink first. */
    method FlushWhole(obits: nat, accepts: bool) returns (ok: bool)
      requires Valid() && nboff <= 7 && 1 <= obits <= 31
      modifies this`buffer, this`nbits, this`sink, this`flushedBytes, tmpspace
      ensures Valid() && nboff <= 7 && Bits() == old(Bits())
      ensures ok <==> old(Room(obits)) || accepts
      ensures ok ==> nboff + obits <= nbits
      ensures old(Room(obits)) ==> buffer == old(buffer) && sink == old(sink)
    {
      hide BytesToBits, NatToBits, P2, Front;
      if nboff + obits > nbits {
        var completeBytes := buffer;
        if !accepts { return false; }
        ghost var t, s := tmpspace[..], sink;
        sink := sink + tmpspace[..completeBytes];
        if nboff != 0 { tmpspace[0] := tmpspace[buffer]; }
        buffer, nbits := 0, 8 * 32;
        flushedBytes := flushedBytes + completeBytes;
        FlushKeepsBits(s, t, tmpspace[..], completeBytes, nboff);
      }
      ok := true;
    }

    /** The four branches on off: the kept bits of the first octet joined with the shifted new ones. */
    method StoreOctets(kept: byte, shifted: nat, off: nat)
      requires Valid() && 1 <= off <= 31 && off <= nbits && kept + Leading(shifted, OctetsFor(off)) < 256
      modifies tmpspace
      ensures tmpspace[..buffer] == old(tmpspace[..buffer])
      ensures tmpspace[buffer..buffer + OctetsFor(off)] == Octets(kept, shifted, OctetsFor(off))
    {
      if off <= 8 {
        tmpspace[buffer] := kept + shifted;
      } else if off <= 16 {
        tmpspace[buffer] := kept + shifted / 256;
        tmpspace[buffer + 1] := shifted % 256;
      } else if off <= 24 {
        tmpspace[buffer] := kept + shifted / 65536;
        tmpspace[buffer + 1] := shifted / 256 % 256;
        tmpspace[buffer + 2] := shifted % 256;
      } else {
        tmpspace[buffer] := kept + shifted / 0x100_0000;
        tmpspace[buffer + 1] := shifted / 65536 % 256;
        tmpspace[buffer + 2] := shifted / 256 % 256;
        tmpspace[buffer + 3] := shifted % 256;
      }
    }

    method StoreField(value: nat, obits: nat)
      requires Valid() && nboff <= 7 && 1 <= obits && nboff + obits <= 31 && nboff + obits <= nbits && value < P2(obits)
      modifies tmpspace
      ensures Front(tmpspace[..], 8 * buffer + (nboff + obits))
           == old(Front(tmpspace[..], 8 * buffer + nboff)) + NatToBits(value, obits)
    {
      hide BytesToBits, NatToBits, P2, Front, ToBytes, Merged, Octets, Leading;
      var off := nboff + obits;
      var nb := OctetsFor(off);
      var shifted := value * P2(8 * nb - off);
      ghost var t := tmpspace[..];
      MergedOctets(t[buffer], nboff, value, obits, 8 * nb - off, nb, shifted);
      StoreOctets(Kept(tmpspace[buffer], nboff), shifted, off);
      WindowAppends(t, tmpspace[..], buffer, nboff, value, obits, 8 * nb - off, nb, tmpspace[buffer..buffer + nb]);
    }

    method WriteBits(bits: nat, obits: nat)
      requires Valid() && nboff <= 7 && 1 <= obits && nboff + obits <= 31 && nboff + obits <= nbits
      modifies this`nboff, tmpspace
      ensures Valid() && Bits() == old(Bits()) + NatToBits(bits, obits) && nboff == old(nboff) + obits
    {
      hide BytesToBits, NatToBits, P2, Front;
      LowBits(bits, obits);
      ghost var before := Front(tmpspace[..], 8 * buffer + nboff);
      StoreField(bits % P2(obits), obits);
      nboff := nboff + obits;
      Associate(BytesToBits(sink), before, NatToBits(bits, obits));
    }

    /** asn_put_few_bits. accepts is the answer of the output callback, asked at most once. */
    method PutFewBits(bits: nat, obits: int, accepts: bool) returns (r: int)
      requires Valid()
      modifies this, tmpspace
      ensures Valid()
      ensures r == 0 <==> 0 <= obits <= 31 && (accepts || obits == 0 || old(Room(obits)))
      ensures r == 0 ==> Bits() == old(Bits()) + NatToBits(bits, obits)
      ensures r != 0 ==> r == -1 && Bits() == old(Bits())
      ensures obits >= 0 && old(Room(obits)) ==> sink == old(sink)
      decreases obits
    {
      hide BytesToBits, NatToBits, P2, Front;
      if obits <= 0 || obits >= 32 {
        assert Bits() + [] == Bits();
        return if obits != 0 then -1 else 0;
      }
      Normalize();
      var ok := FlushWhole(obits, accepts);
      if !ok { return -1; }
      if nboff + obits <= 31 {
        WriteBits(bits, obits);
      } else {
        SplitAt(bits, 24, obits - 24);
        ghost var before := Bits();
        var first := PutFewBits(bits / P2(obits - 24), 24, accepts);
        assert |Bits()| == |before| + 24;
        var second := PutFewBits(bits, obits - 24, accepts);
        Associate(before, NatToBits(bits / P2(obits - 24), 24), NatToBits(bits, obits - 24));
      }
      r := 0;
    }

    /** aper_put_align: zero bits up to the next octet boundary. */
    method PutAlign(accepts: bool) returns (r: int)
      requires Valid()
      modifies this, tmpspace
      ensures Valid()
      ensures r == 0 ==> Bits() == old(Bits()) + Padding(|old(Bits())|)
      ensures r != 0 ==> r == -1 && Bits() == old(Bits())
      ensures accepts ==> r == 0
    {
      hide BytesToBits, NatToBits, P2, Front;
      assert |Bits()| % 8 == nboff % 8;
      if nboff % 8 != 0 {
        r := PutFewBits(0, 8 - nboff % 8, accepts);
      } else {
        assert Bits() + [] == Bits();
        r := 0;
      }
    }

    method MaskOctet(last: nat, o: nat)
      requires last < tmpspace.Length && o <= 7
      modifies tmpspace
      ensures tmpspace[..last + 1] == old(tmpspace[..last]) + [Kept(old(tmpspace[last]), o)]
    {
      tmpspace[last] := Kept(tmpspace[last], o);
    }

    /** The partial octet of asn_put_aligned_flush gets its unused bits cleared. */
    method ClearUnused(last: nat, o: nat)
      requires tmpspace.Length == 32 && last <= 32 && o <= 7 && (o > 0 ==> last < 32)
      modifies tmpspace
      ensures BytesToBits(tmpspace[..last + OctetsFor(o)])
           == old(Front(tmpspace[..], 8 * last + o)) + NatToBits(0, (8 - o) % 8)
    {
      hide BytesToBits, NatToBits, Front, Kept;
      ghost var t := tmpspace[..];
      if o != 0 {
        MaskOctet(last, o);
        PaddedFront(t, last, o, tmpspace[..last + 1]);
      } else {
        WholeFront(t, last);
      }
    }

    /** Hands n octets of the window to the sink and starts the window afresh. */
    method Emit(n: nat)
      requires n <= tmpspace.Length == 32 && flushedBytes == |sink|
      modifies this`sink, this`buffer, this`nboff, this`nbits, this`flushedBytes
      ensures Valid() && nboff == buffer == 0
      ensures BytesToBits(sink) == old(BytesToBits(sink)) + old(BytesToBits(tmpspace[..n]))
    {
      BytesToBitsAppend(sink, tmpspace[..n]);
      sink := sink + tmpspace[..n];
      buffer, nboff, nbits := 0, 0, 8 * 32;
      flushedBytes := flushedBytes + n;
    }

    /** asn_put_aligned_flush: the sink then holds every bit put so far, padded to whole octets. */
    method AlignedFlush(accepts: bool) returns (r: int)
      requires Valid()
      modifies this, tmpspace
      ensures r == 0 <==> accepts
      ensures r == 0 ==> Valid() && nboff == buffer == 0 && BytesToBits(sink) == old(Bits()) + Padding(old(nboff))
    {
      hide BytesToBits, NatToBits, Front;
      var last, o := buffer + nboff / 8, nboff % 8;
      ghost var front := Front(tmpspace[..], 8 * buffer + nboff);
      assert 8 * last + o == 8 * buffer + nboff;
      ClearUnused(last, o);
      Associate(BytesToBits(sink), front, Padding(nboff));
      if !accepts { return -1; }
      Emit(last + OctetsFor(o));
      r := 0;
    }
  }

  /** The zero bits between position n and the next octet boundary. */
  function Padding(n: nat): seq<bit> { NatToBits(0, PadBits(n)) }

  function PadBits(n: nat): nat { (8 - n % 8) % 8 }

  lemma SplitAt(v: nat, m: nat, n: nat)
    ensures v / P2(n) >= 0 && NatToBits(v, m + n) == NatToBits(v / P2(n), m) + NatToBits(v, n)
  {
    HighBits(v, m, n);
    LowBits(v, n);
  }

  /** How many octets hold n bits. */
  function OctetsFor(n: nat): nat { (n + 7) / 8 }

  /** What of an nb-octet number falls in its first octet. */
  function Leading(x: nat, nb: nat): nat
  {
    if nb <= 1 then x else if nb == 2 then x / 256 else if nb == 3 then x / 65536 else x / 0x100_0000
  }

  function Octets(kept: byte, shifted: nat, nb: nat): seq<byte>
    requires 1 <= nb <= 4 && kept + Leading(shifted, nb) < 256
  {
    if nb == 1 then [kept + shifted]
    else if nb == 2 then [kept + shifted / 256, shifted % 256]
    else if nb == 3 then [kept + shifted / 65536, shifted / 256 % 256, shifted % 256]
    else [kept + shifted / 0x100_0000, shifted / 65536 % 256, shifted / 256 % 256, shifted % 256]
  }

  lemma OctetsAreToBytes(kept: byte, shifted: nat, nb: nat)
    requires 1 <= nb <= 4 && kept + Leading(shifted, nb) < 256
    ensures Octets(kept, shifted, nb) == ToBytes(kept * P2(8 * nb - 8) + shifted, nb)
  {
    Weights(nb);
    if nb <= 1 {
      OneOctet(kept + shifted, nb);
    } else if nb == 2 {
      TwoOctets(kept, shifted, nb);
    } else if nb == 3 {
      ThreeOctets(kept, shifted, nb);
    } else {
      FourOctets(kept, shifted, nb);
    }
  }

  lemma Weights(nb: nat)
    requires 1 <= nb <= 4
    ensures P2(8 * nb - 8) == if nb == 1 then 1 else if nb == 2 then 256 else if nb == 3 then 65536 else 0x100_0000
  {
    P2Of8();
    P2Add(8, 8);
    P2Add(16, 8);
  }

  lemma LeadingIs(x: nat, nb: nat)
    requires 1 <= nb <= 4
    ensures Leading(x, nb) == x / P2(8 * nb - 8)
  {
    Weights(nb);
  }

  lemma ToBytesStep(hi: nat, s: nat, n: nat)
    ensures ToBytes(hi * 256 + s, n + 1) == ToBytes(hi + s / 256, n) + [s % 256]
  {
    var w := hi * 256 + s;
    assert w / 256 == hi + s / 256 && w % 256 == s % 256;
  }

  lemma Nested(s: nat)
    ensures s / 256 / 256 == s / 65536 && s / 256 / 65536 == s / 0x100_0000
  {
  }

  /** n is a parameter in these four, so that the solver does not unfold ToBytes by itself. */
  lemma OneOctet(b: byte, n: nat)
    requires 0 < n < 2
    ensures ToBytes(b, n) == [b]
  {
    assert ToBytes(b, n) == ToBytes(b / 256, n - 1) + [b % 256];
  }

  lemma TwoOctets(b0: byte, shifted: nat, n: nat)
    requires b0 + shifted / 256 < 256 && 1 < n < 3
    ensures ToBytes(b0 * 256 + shifted, n) == [b0 + shifted / 256, shifted % 256]
  {
    OneOctet(b0 + shifted / 256, n - 1);
    ToBytesStep(b0, shifted, n - 1);
  }

  lemma ThreeOctets(b0: byte, shifted: nat, n: nat)
    requires b0 + shifted / 65536 < 256 && 2 < n < 4
    ensures ToBytes(b0 * 65536 + shifted, n) == [b0 + shifted / 65536, shifted / 256 % 256, shifted % 256]
  {
    Nested(shifted);
    TwoOctets(b0, shifted / 256, n - 1);
    ToBytesStep(b0 * 256, shifted, n - 1);
  }

  lemma FourOctets(b0: byte, shifted: nat, n: nat)
    requires b0 + shifted / 0x100_0000 < 256 && 3 < n < 5
    ensures ToBytes(b0 * 0x100_0000 + shifted, n)
         == [b0 + shifted / 0x100_0000, shifted / 65536 % 256, shifted / 256 % 256, shifted % 256]
  {
    Nested(shifted);
    ThreeOctets(b0, shifted / 256, n - 1);
    ToBytesStep(b0 * 65536, shifted, n - 1);
  }

  // ----- input -----

  /** asn_bit_data_t without a refill function: data is the memory block, buffer an index into it. */
  class BitInput {
    const data: seq<byte>
    var buffer: nat
    var nboff: nat
    var nbits: nat
    var moved: nat

    constructor (octets: seq<byte>)
      ensures Valid() && data == octets && moved == 0 && Remaining() == BytesToBits(octets)
    {
      data, buffer, nboff, nbits, moved := octets, 0, 0, 8 * |octets|, 0;
    }

    /** The same position in the same octets. */
    constructor Copy(other: BitInput)
      requires other.Valid()
      ensures Valid() && data == other.data && buffer == other.buffer && nboff == other.nboff
      ensures nbits == other.nbits && moved == other.moved && Remaining() == other.Remaining()
    {
      data, buffer, nboff, nbits, moved := other.data, other.buffer, other.nboff, other.nbits, other.moved;
    }

    predicate Valid()
      reads this
    {
      nboff <= nbits && 8 * buffer + nbits == 8 * |data|
    }

    /** The bits not read yet. */
    function Remaining(): (r: seq<bit>)
      requires Valid()
      reads this
      ensures |r| == nbits - nboff
    {
      BytesToBits(data)[8 * buffer + nboff..]
    }

    method Normalize()
      requires Valid()
      modifies this`buffer, this`nbits, this`nboff
      ensures Valid() && nboff <= 7 && 8 * buffer + nboff == old(8 * buffer + nboff) && Remaining() == old(Remaining())
    {
      if nboff >= 8 {
        buffer := buffer + nboff / 8;
        nbits := nbits - (nboff - nboff % 8);
        nboff := nboff % 8;
      }
    }

    /** The octets an n-bit field touches, as one number. */
    method Window(off: nat) returns (w: nat)
      requires Valid() && 1 <= off <= 31 && off <= nbits
      ensures w == Unsigned(data[buffer..buffer + OctetsFor(off)])
    {
      WindowValue(data, buffer, OctetsFor(off));
      if off <= 8 {
        w := data[buffer];
      } else if off <= 16 {
        w := (data[buffer] as int) * 256 + data[buffer + 1];
      } else if off <= 24 {
        w := (data[buffer] as int) * 65536 + (data[buffer + 1] as int) * 256 + data[buffer + 2];
      } else {
        w := (data[buffer] as int) * 0x100_0000 + (data[buffer + 1] as int) * 65536 + (data[buffer + 2] as int) * 256 + data[buffer + 3];
      }
    }

    method Extract(n: nat) returns (accum: nat)
      requires Valid() && nboff <= 7 && 1 <= n && nboff + n <= 31 && nboff + n <= nbits
      ensures accum < P2(n) && NatToBits(accum, n) == Remaining()[..n]
    {
      hide BytesToBits, NatToBits, P2;
      var off := nboff + n;
      var w := Window(off);
      accum := w / P2(8 * OctetsFor(off) - off) % P2(n);
      ghost var nb := OctetsFor(off);
      FieldValue(data, buffer, nb, nboff, n, w, 8 * nb - off, BytesToBits(data), BytesToBits(data[..buffer]),
                 BytesToBits(data[buffer..buffer + nb]));
    }

    method Advance(n: nat)
      requires Valid() && nboff + n <= nbits
      modifies this`nboff, this`moved
      ensures Valid() && moved == old(moved) + n && nboff == old(nboff) + n && Remaining() == old(Remaining())[n..]
    {
      nboff := nboff + n;
      moved := moved + n;
    }

    /** asn_get_few_bits: the next n bits as a number, or -1. */
    method GetFewBits(n: int) returns (r: int)
      requires Valid()
      modifies this
      ensures Valid()
      ensures r >= 0 <==> 0 <= n <= 31 && n <= |old(Remaining())|
      ensures r >= 0 ==> r < P2(n) && NatToBits(r, n) == old(Remaining())[..n]
      ensures r >= 0 ==> Remaining() == old(Remaining())[n..] && moved == old(moved) + n
      ensures r < 0 ==> r == -1 && Remaining() == old(Remaining()) && moved == old(moved)
      ensures 8 * buffer + nboff == old(8 * buffer + nboff) + if r >= 0 then n else 0
      decreases n, 1
    {
      if n < 0 || n > nbits - nboff { return -1; }
      Normalize();
      if n == 0 { return 0; }
      if nboff + n <= 31 {
        r := Extract(n);
      } else if n <= 31 {
        r := ReadWide(n);
      } else {
        return -1;
      }
      Advance(n);
    }

    /** More bits than four octets hold from here: two reads on a copy of the position. */
    method ReadWide(n: nat) returns (accum: nat)
      requires Valid() && 25 <= n <= 31 && nboff + n <= nbits
      ensures accum < P2(n) && NatToBits(accum, n) == Remaining()[..n]
      decreases n, 0
    {
      hide BytesToBits, NatToBits, P2, Remaining;
      var tpd := new BitInput.Copy(this);
      var high := tpd.GetFewBits(n - 24);
      ghost var rest := tpd.Remaining();
      var low := tpd.GetFewBits(24);
      JoinedValue(high, n - 24, low, 24, Remaining(), rest);
      accum := high * P2(24) + low;
    }

    /** The same, with the value read off the bits. */
    method GetNumber(n: nat) returns (value: int)
      requires Valid() && n <= 31
      modifies this
      ensures Valid()
      ensures value >= 0 <==> n <= |old(Remaining())|
      ensures value >= 0 ==> value == BitsToNat(old(Remaining())[..n]) && value < P2(n)
      ensures value >= 0 ==> Remaining() == old(Remaining())[n..]
      ensures value >= 0 ==> 8 * buffer + nboff == old(8 * buffer + nboff) + n
    {
      hide P2, NatToBits, BitsToNat, Remaining;
      ghost var all := Remaining();
      value := GetFewBits(n);
      if value >= 0 { ReadNumber(value, n, all[..n]); }
    }

    /** aper_get_align: the value of the skipped bits, not zero for success. */
    method GetAlign() returns (r: int)
      requires Valid()
      modifies this
      ensures Valid()
      ensures var skip := PadBits(old(8 * buffer + nboff));
              && skip <= |old(Remaining())| && Remaining() == old(Remaining())[skip..]
              && 0 <= r < P2(skip) && NatToBits(r, skip) == old(Remaining())[..skip]
              && 8 * buffer + nboff == old(8 * buffer + nboff) + skip
    {
      hide BytesToBits, NatToBits, P2, Remaining, PadBits;
      TakeNothing(Remaining());
      PadOf(buffer, nboff, nbits, |data|);
      if nboff % 8 != 0 {
        r := GetFewBits(8 - nboff % 8);
      } else {
        r := 0;
      }
    }
  }

  /** The padding never reaches past the end of the octets. */
  lemma PadOf(buffer: nat, nboff: nat, nbits: nat, size: nat)
    requires nboff <= nbits && 8 * buffer + nbits == 8 * size
    ensures PadBits(8 * buffer + nboff) == if nboff % 8 == 0 then 0 else 8 - nboff % 8
    ensures PadBits(8 * buffer + nboff) <= nbits - nboff
  {
  }

  lemma TakeNothing(all: seq<bit>)
    ensures P2(0) == 1 && NatToBits(0, 0) == all[..0] && all[0..] == all
  {
  }

  lemma JoinedValue(high: nat, m: nat, low: nat, n: nat, bits: seq<bit>, rest: seq<bit>)
    requires m + n <= |bits| && rest == bits[m..] && low < P2(n) && high < P2(m)
    requires NatToBits(high, m) == bits[..m] && NatToBits(low, n) == rest[..n]
    ensures 0 <= high * P2(n) + low < P2(m + n) && NatToBits(high * P2(n) + low, m + n) == bits[..m + n]
  {
    JoinBits(high, m, low, n);
    P2Add(m, n);
    JoinedBound(high, P2(m), low, P2(n));
    assert bits[..m + n] == bits[..m] + rest[..n];
  }

  lemma JoinedBound(high: nat, p: nat, low: nat, q: nat)
    requires high < p && low < q
    ensures 0 <= high * q + low < p * q
  {
    assert (high + 1) * q <= p * q;
  }

  /** An octet more on the right of a slice. */
  lemma SliceStep(d: seq<byte>, p: nat, q: nat)
    requires p <= q < |d|
    ensures Unsigned(d[p..q + 1]) == Unsigned(d[p..q]) * 256 + d[q]
  {
    UnsignedSnoc(d[p..q], d[q]);
    assert d[p..q + 1] == d[p..q] + [d[q]];
  }

  lemma WindowValue(d: seq<byte>, p: nat, nb: nat)
    requires 1 <= nb <= 4 && p + nb <= |d|
    ensures nb == 1 ==> Unsigned(d[p..p + nb]) == d[p]
    ensures nb == 2 ==> Unsigned(d[p..p + nb]) == (d[p] as int) * 256 + d[p + 1]
    ensures nb == 3 ==> Unsigned(d[p..p + nb]) == (d[p] as int) * 65536 + (d[p + 1] as int) * 256 + d[p + 2]
    ensures nb == 4 ==> Unsigned(d[p..p + nb]) == (d[p] as int) * 0x100_0000 + (d[p + 1] as int) * 65536 + (d[p + 2] as int) * 256 + d[p + 3]
  {
    assert d[p..p] == [];
    SliceStep(d, p, p);
    if nb >= 2 { SliceStep(d, p, p + 1); }
    if nb >= 3 { SliceStep(d, p, p + 2); }
    if nb >= 4 { SliceStep(d, p, p + 3); }
  }

  /** The n bits after the first o of the window p..p + nb, as a number. */
  lemma FieldValue(d: seq<byte>, p: nat, nb: nat, o: nat, n: nat, w: nat, after: nat,
                   bd: seq<bit>, whole: seq<bit>, next: seq<bit>)
    requires o + n + after == 8 * nb && p + nb <= |d| && Unsigned(d[p..p + nb]) == w
    requires bd == BytesToBits(d) && whole == BytesToBits(d[..p]) && next == BytesToBits(d[p..p + nb])
    ensures w / P2(after) >= 0
    ensures NatToBits(w / P2(after) % P2(n), n) == bd[8 * p + o..][..n]
  {
    hide NatToBits, P2, BytesToBits, Unsigned;
    LeadingBits(d, p, nb, o + n, bd, whole, next);
    UnsignedBits(d[p..p + nb]);
    NumberField(w, o, n, after, next);
    Within(bd, whole, next, 8 * p, o, n);
  }

  lemma NumberField(w: nat, o: nat, n: nat, rest: nat, all: seq<bit>)
    requires all == NatToBits(w, o + n + rest)
    ensures w / P2(rest) >= 0 && NatToBits(w / P2(rest) % P2(n), n) == all[o..o + n]
  {
    var accum := w / P2(rest);
    HighBits(w, o + n, rest);
    HighBits(accum, o, n);
    assert all[o..o + n] == all[..o + n][o..];
  }

  lemma Within<T>(all: seq<T>, whole: seq<T>, next: seq<T>, k: nat, o: nat, n: nat)
    requires k + o + n <= |all| && |whole| == k && o + n <= |next| && all[..k + (o + n)] == whole + next[..o + n]
    ensures all[k + o..][..n] == next[o..o + n]
  {
    assert all[k + o..][..n] == all[..k + (o + n)][k + o..];
  }
}
