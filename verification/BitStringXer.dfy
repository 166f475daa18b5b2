/** BIT STRING in XER: the binary printer and the resumable binary parser. */
module BitStringXer {
  import opened Text
  import opened Bytes
  import opened BitSeqs
  import opened Seqs

  // ----- bit strings as octets -----

  /** Octets and bits_unused; the unused bits of the last octet are zero when it is Proper. */
  datatype Held = Held(octets: seq<byte>, unused: nat)

  predicate Proper(h: Held)
  {
    h.unused <= 7 && (h.unused > 0 ==> h.octets != [] && h.octets[|h.octets| - 1] % P2(h.unused) == 0)
  }

  /** One bit more: in the next unused position of the last octet, or the first of a new one. */
  function Push(h: Held, b: bit): (r: Held)
    requires Proper(h)
    ensures Proper(r) && 8 * |r.octets| - r.unused == 8 * |h.octets| - h.unused + 1
  {
    if h.unused == 0 then
      P2Of8();
      DivUnique(b * 128, P2(7), b, 0);
      Held(h.octets + [b * 128], 7)
    else
      var last := h.octets[|h.octets| - 1];
      PushFits(last, h.unused, b);
      Held(h.octets[..|h.octets| - 1] + [last + b * P2(h.unused - 1)], h.unused - 1)
  }

  lemma PushFits(last: byte, unused: nat, b: bit)
    requires 1 <= unused <= 7 && last % P2(unused) == 0
    ensures 0 <= last + b * P2(unused - 1) < 256 && (last + b * P2(unused - 1)) % P2(unused - 1) == 0
    ensures last / P2(unused) >= 0 && last + b * P2(unused - 1) == (2 * (last / P2(unused)) + b) * P2(unused - 1)
  {
    P2Of8();
    P2Add(8 - unused, unused);
    var p, q := P2(unused - 1), last / P2(unused);
    DivMod(last, P2(unused));
    FitsAt(last, q, p, P2(8 - unused), b);
    DivUnique(last + b * p, p, 2 * q + b, 0);
  }

  lemma FitsAt(last: nat, q: nat, p: nat, r: nat, b: bit)
    requires p > 0 && last == q * (2 * p) && r * (2 * p) == 256 && last < 256
    ensures 0 <= last + b * p < 256 && last + b * p == (2 * q + b) * p
  {
    var d := r - q;
    assert d * (2 * p) == 256 - last;
    assert d >= 1 ==> d * (2 * p) >= 2 * p;
    assert d <= 0 ==> d * (2 * p) <= 0;
    assert (2 * q + b) * p == q * (2 * p) + b * p;
  }

  function PushAll(h: Held, bits: seq<bit>): (r: Held)
    requires Proper(h)
    ensures Proper(r) && 8 * |r.octets| - r.unused == 8 * |h.octets| - h.unused + |bits|
    decreases |bits|
  {
    if bits == [] then h else Push(PushAll(h, bits[..|bits| - 1]), bits[|bits| - 1])
  }

  /** The octets that hold a sequence of bits. */
  function Pack(bits: seq<bit>): (h: Held)
    ensures Proper(h) && 8 * |h.octets| - h.unused == |bits|
  {
    PushAll(Held([], 0), bits)
  }

  /** The bits of octets but the unused ones. */
  function Unpack(h: Held): (r: seq<bit>)
    requires h.unused <= 8 * |h.octets|
    ensures |r| == 8 * |h.octets| - h.unused
  {
    BytesToBits(h.octets)[..8 * |h.octets| - h.unused]
  }

  lemma OneThenZeros(b: bit, n: nat)
    requires n == 7
    ensures NatToBits(b * 128, 8) == [b] + NatToBits(0, n)
  {
    SevenBits();
    hide NatToBits, P2;
    HeadThenZeros(b * 128, b, n);
    OneBit(b, 8 - n);
  }

  lemma PushNewOctet(octets: seq<byte>, b: bit, bits: seq<bit>, zeros: seq<bit>)
    requires bits == BytesToBits(octets) && zeros == NatToBits(0, 7)
    ensures BytesToBits(octets + [b * 128]) == (bits + [b]) + zeros
  {
    hide BytesToBits, NatToBits;
    BytesToBitsAppend(octets, [b * 128]);
    BytesToBitsOne(b * 128);
    OneThenZeros(b, 7);
    Associate(bits, [b], zeros);
  }

  lemma HeadThenZeros(x: byte, q: nat, u: nat)
    requires u <= 8 && x == q * P2(u)
    ensures NatToBits(x, 8) == NatToBits(q, 8 - u) + NatToBits(0, u)
  {
    JoinBits(q, 8 - u, 0, u);
  }

  lemma PushOldOctet(front: seq<byte>, last: byte, last': byte, q: nat, u: nat, b: bit, bits: seq<bit>,
                     zeros: seq<bit>, zeros': seq<bit>)
    requires 1 <= u <= 7 && last == q * P2(u) && last' == (2 * q + b) * P2(u - 1)
    requires zeros == NatToBits(0, u) && zeros' == NatToBits(0, u - 1)
    requires BytesToBits(front + [last]) == bits + zeros
    ensures BytesToBits(front + [last']) == (bits + [b]) + zeros'
  {
    hide BytesToBits, NatToBits, P2;
    var whole, high := BytesToBits(front), NatToBits(q, 8 - u);
    BytesToBitsAppend(front, [last]);
    BytesToBitsOne(last);
    HeadThenZeros(last, q, u);
    Cancel(whole, high, zeros, bits);
    BytesToBitsAppend(front, [last']);
    BytesToBitsOne(last');
    HeadThenZeros(last', 2 * q + b, u - 1);
    NextBit(q, b, 8 - u);
    Regroup(whole, high, [b], zeros');
  }

  lemma NextBit(q: nat, b: bit, n: nat)
    ensures NatToBits(2 * q + b, n + 1) == NatToBits(q, n) + [b]
  {
    assert (2 * q + b) / 2 == q && (2 * q + b) % 2 == b;
  }

  lemma Cancel<T>(a: seq<T>, b: seq<T>, c: seq<T>, d: seq<T>)
    requires a + (b + c) == d + c
    ensures a + b == d
  {
    assert (a + (b + c))[..|a| + |b|] == a + b;
    assert |d| == |a| + |b|;
    assert (d + c)[..|d|] == d;
  }

  /** Pushing keeps the bits and fills up with zeros. */
  lemma {:induction false} PushAllBits(h: Held, before: seq<bit>, bits: seq<bit>)
    requires Proper(h) && BytesToBits(h.octets) == before + NatToBits(0, h.unused)
    ensures BytesToBits(PushAll(h, bits).octets) == (before + bits) + NatToBits(0, PushAll(h, bits).unused)
    decreases |bits|
  {
    hide BytesToBits, NatToBits, Push;
    if bits == [] {
      assert before + [] == before;
    } else {
      var front, b := bits[..|bits| - 1], bits[|bits| - 1];
      PushAllBits(h, before, front);
      PushBits(PushAll(h, front), b, before + front);
      assert (before + front) + [b] == before + bits;
    }
  }

  /** Unpacking is the inverse of packing. */
  lemma UnpackPack(bits: seq<bit>)
    ensures Unpack(Pack(bits)) == bits
    ensures BytesToBits(Pack(bits).octets) == bits + NatToBits(0, Pack(bits).unused)
  {
    assert BytesToBits([]) == [] + NatToBits(0, 0);
    PushAllBits(Held([], 0), [], bits);
    assert [] + bits == bits;
  }

  lemma {:induction false} PushAllAppend(h: Held, a: seq<bit>, b: seq<bit>)
    requires Proper(h)
    ensures PushAll(PushAll(h, a), b) == PushAll(h, a + b)
    decreases |b|
  {
    hide Push;
    if b == [] {
      assert a + b == a;
    } else {
      PushAllAppend(h, a, b[..|b| - 1]);
      assert (a + b)[..|a + b| - 1] == a + b[..|b| - 1];
    }
  }

  lemma PushBits(h: Held, b: bit, bits: seq<bit>)
    requires Proper(h) && BytesToBits(h.octets) == bits + NatToBits(0, h.unused)
    ensures BytesToBits(Push(h, b).octets) == (bits + [b]) + NatToBits(0, Push(h, b).unused)
  {
    hide BytesToBits, P2;
    if h.unused == 0 {
      assert bits + NatToBits(0, 0) == bits;
      PushNewOctet(h.octets, b, bits, NatToBits(0, 7));
    } else {
      var front, last := h.octets[..|h.octets| - 1], h.octets[|h.octets| - 1];
      assert h.octets == front + [last];
      PushFits(last, h.unused, b);
      DivMod(last, P2(h.unused));
      PushOldOctet(front, last, last + b * P2(h.unused - 1), last / P2(h.unused), h.unused, b, bits,
                   NatToBits(0, h.unused), NatToBits(0, h.unused - 1));
    }
  }

  // ----- what a text means -----

  predicate IsBinaryText(s: string)
  {
    forall i :: 0 <= i < |s| ==> s[i] == '0' || s[i] == '1' || IsXerSpace(s[i])
  }

  predicate IsBinary(c: char) { c == '0' || c == '1' }

  function BitOf(c: char): bit { if c == '1' then 1 else 0 }

  function TextBits(s: string): (r: seq<bit>)
    ensures |r| <= |s|
  {
    if s == "" then []
    else if IsBinary(s[|s| - 1]) then TextBits(s[..|s| - 1]) + [BitOf(s[|s| - 1])]
    else TextBits(s[..|s| - 1])
  }

  lemma TextBitsSnoc(s: string)
    ensures s == "" ==> TextBits(s) == []
    ensures s != "" ==> TextBits(s) == TextBits(s[..|s| - 1]) + if IsBinary(s[|s| - 1]) then [BitOf(s[|s| - 1])] else []
  {
  }

  lemma {:induction false} TextBitsAppend(a: string, b: string)
    ensures TextBits(a + b) == TextBits(a) + TextBits(b)
    decreases |b|
  {
    hide TextBits;
    TextBitsSnoc(b);
    if b == "" {
      assert a + b == a;
    } else {
      var ab, front := a + b, b[..|b| - 1];
      TextBitsAppend(a, front);
      TextBitsSnoc(ab);
      assert ab[..|ab| - 1] == a + front && ab[|ab| - 1] == b[|b| - 1];
      Associate(TextBits(a), TextBits(front), if IsBinary(b[|b| - 1]) then [BitOf(b[|b| - 1])] else []);
    }
  }

  /** Two texts one after the other leave the octets and bits_unused that they leave as one text. */
  lemma ChunkIndependence(h: Held, a: string, b: string)
    requires Proper(h)
    ensures PushAll(PushAll(h, TextBits(a)), TextBits(b)) == PushAll(h, TextBits(a + b))
  {
    TextBitsAppend(a, b);
    PushAllAppend(h, TextBits(a), TextBits(b));
  }

  // ----- the printer -----

  function BitsText(bits: seq<bit>): (r: string)
    ensures |r| == |bits|
  {
    if bits == [] then "" else BitsText(bits[..|bits| - 1]) + [if bits[|bits| - 1] == 1 then '1' else '0']
  }

  /** The digits are the characters 0 and 1, in order. */
  lemma {:induction false} BitsTextExactly(bits: seq<bit>, i: nat)
    requires i < |bits|
    ensures BitsText(bits)[i] == if bits[i] == 1 then '1' else '0'
    ensures BitOf('0') == 0 && BitOf('1') == 1
  {
    if i < |bits| - 1 { BitsTextExactly(bits[..|bits| - 1], i); }
  }

  lemma {:induction false} BitsTextBits(bits: seq<bit>)
    ensures IsBinaryText(BitsText(bits)) && TextBits(BitsText(bits)) == bits
  {
    hide TextBits;
    TextBitsSnoc("");
    if bits != [] {
      var front := bits[..|bits| - 1];
      BitsTextBits(front);
      assert BitsText(bits)[..|bits| - 1] == BitsText(front);
      TextBitsSnoc(BitsText(bits));
    }
  }

  lemma {:induction false} BitsTextAppend(a: seq<bit>, b: seq<bit>)
    ensures BitsText(a + b) == BitsText(a) + BitsText(b)
    decreases |b|
  {
    if b == [] {
      assert a + b == a;
    } else {
      BitsTextAppend(a, b[..|b| - 1]);
      assert (a + b)[..|a + b| - 1] == a + b[..|b| - 1];
    }
  }

  /** Entry d of _bit_pattern. */
  function Pattern(d: nat): (r: string)
    ensures |r| == 4
  {
    BitsText(NatToBits(d, 4))
  }

  function OctetText(b: byte): (r: string)
    ensures |r| == 8
  {
    BitsText(NatToBits(b, 8))
  }

  lemma TwoPatterns(b: byte)
    ensures Pattern(b / 16) + Pattern(b % 16) == OctetText(b)
  {
    assert P2(4) == 16;
    HighBits(b, 4, 4);
    var high, low, all := NatToBits(b / 16, 4), NatToBits(b % 16, 4), NatToBits(b, 8);
    assert all == all[..4] + all[4..];
    BitsTextAppend(high, low);
  }

  /** Before octet i, a new line in front of every eighth when not canonical. */
  function Line(i: nat, canonical: bool, level: int): string
  {
    if !canonical && i % 8 == 0 then Indent(level) else ""
  }

  /** The text of the first n octets, all of them whole. */
  function Body(octets: seq<byte>, n: nat, canonical: bool, level: int): string
    requires n <= |octets|
  {
    if n == 0 then ""
    else Body(octets, n - 1, canonical, level) + (Line(n - 1, canonical, level) + OctetText(octets[n - 1]))
  }

  /** The text of octets lo to hi on one line. */
  function Row(octets: seq<byte>, lo: nat, hi: nat): (r: string)
    requires lo <= hi <= |octets|
    ensures |r| == 8 * (hi - lo)
    decreases hi
  {
    if lo == hi then "" else Row(octets, lo, hi - 1) + OctetText(octets[hi - 1])
  }

  /** Where the line of octet i - 1 begins. */
  function RowStart(i: nat): (r: nat)
    ensures r <= i && r % 8 == 0
  {
    if i == 0 then 0 else (i - 1) / 8 * 8
  }

  lemma RowStep(octets: seq<byte>, i: nat)
    requires i < |octets|
    ensures Row(octets, RowStart(i + 1), i + 1)
         == (if i % 8 == 0 then "" else Row(octets, RowStart(i), i)) + OctetText(octets[i])
  {
    hide OctetText;
    assert i % 8 == 0 ==> RowStart(i + 1) == i;
    assert i % 8 != 0 ==> RowStart(i + 1) == RowStart(i);
  }

  /** All the text before the last octet. When that octet would begin a line, its new line goes out in front of
      the line that the scratch buffer still holds. */
  function Front(octets: seq<byte>, n: nat, canonical: bool, level: int): string
    requires n <= |octets|
  {
    if canonical || n % 8 != 0 then Body(octets, n, canonical, level)
    else if n == 0 then Indent(level)
    else (Body(octets, n - 8, false, level) + Indent(level)) + (Indent(level) + Row(octets, n - 8, n))
  }

  /** The used bits of the last octet. */
  function LastText(h: Held): string
    requires h.unused <= 7
  {
    if h.octets == [] then ""
    else
      DivMod(h.octets[|h.octets| - 1], P2(h.unused));
      BitsText(NatToBits(h.octets[|h.octets| - 1] / P2(h.unused), 8 - h.unused))
  }

  /** What BIT_STRING_encode_xer hands to its callback, in all. */
  function XerText(h: Held, canonical: bool, level: int): string
    requires h.unused <= 7
  {
    var n := if h.octets == [] then 0 else |h.octets| - 1;
    Front(h.octets, n, canonical, level) + LastText(h)
    + if canonical then "" else Indent(level - 1)
  }

  lemma {:induction false} SpaceHasNoBits(s: string)
    requires AllXerSpace(s)
    ensures IsBinaryText(s) && TextBits(s) == []
  {
    if s != "" { SpaceHasNoBits(s[..|s| - 1]); }
  }

  lemma BinaryTextAppend(a: string, b: string)
    requires IsBinaryText(a) && IsBinaryText(b)
    ensures IsBinaryText(a + b) && TextBits(a + b) == TextBits(a) + TextBits(b)
  {
    TextBitsAppend(a, b);
  }

  lemma LineHasNoBits(i: nat, canonical: bool, level: int)
    ensures IsBinaryText(Line(i, canonical, level)) && TextBits(Line(i, canonical, level)) == []
  {
    hide Indent;
    SpaceHasNoBits(Line(i, canonical, level));
  }

  lemma {:induction false} BodyBits(octets: seq<byte>, n: nat, canonical: bool, level: int)
    requires n <= |octets|
    ensures IsBinaryText(Body(octets, n, canonical, level))
    ensures TextBits(Body(octets, n, canonical, level)) == BytesToBits(octets[..n])
  {
    hide TextBits, IsBinaryText, Line, OctetText, Indent;
    if n == 0 {
      SpaceHasNoBits("");
    } else {
      BodyBits(octets, n - 1, canonical, level);
      var before, line, text := Body(octets, n - 1, canonical, level), Line(n - 1, canonical, level), OctetText(octets[n - 1]);
      LineHasNoBits(n - 1, canonical, level);
      OctetTextBits(octets[n - 1]);
      BinaryTextAppend(line, text);
      BinaryTextAppend(before, line + text);
      assert [] + NatToBits(octets[n - 1], 8) == NatToBits(octets[n - 1], 8);
      assert octets[..n][..n - 1] == octets[..n - 1];
    }
  }

  lemma {:induction false} RowBits(octets: seq<byte>, lo: nat, hi: nat)
    requires lo <= hi <= |octets|
    ensures IsBinaryText(Row(octets, lo, hi)) && TextBits(Row(octets, lo, hi)) == BytesToBits(octets[lo..hi])
    decreases hi
  {
    hide TextBits, IsBinaryText, OctetText;
    if lo == hi {
      SpaceHasNoBits("");
    } else {
      RowBits(octets, lo, hi - 1);
      OctetTextBits(octets[hi - 1]);
      BinaryTextAppend(Row(octets, lo, hi - 1), OctetText(octets[hi - 1]));
      assert octets[lo..hi][..hi - lo - 1] == octets[lo..hi - 1];
    }
  }

  lemma FrontBits(octets: seq<byte>, n: nat, canonical: bool, level: int)
    requires n <= |octets|
    ensures IsBinaryText(Front(octets, n, canonical, level))
    ensures TextBits(Front(octets, n, canonical, level)) == BytesToBits(octets[..n])
  {
    hide TextBits, IsBinaryText, Body, Row, Indent, BytesToBits;
    SpaceHasNoBits(Indent(level));
    if canonical || n % 8 != 0 {
      BodyBits(octets, n, canonical, level);
    } else if n == 0 {
      SpaceHasNoBits("");
      BodyBits(octets, 0, canonical, level);
      NoBody(octets, canonical, level);
    } else {
      var body, row := Body(octets, n - 8, false, level), Row(octets, n - 8, n);
      BodyBits(octets, n - 8, false, level);
      RowBits(octets, n - 8, n);
      BinaryTextAppend(body, Indent(level));
      BinaryTextAppend(Indent(level), row);
      BinaryTextAppend(body + Indent(level), Indent(level) + row);
      assert octets[..n] == octets[..n - 8] + octets[n - 8..n];
      BytesToBitsAppend(octets[..n - 8], octets[n - 8..n]);
      assert (TextBits(body) + []) + ([] + TextBits(row)) == TextBits(body) + TextBits(row);
    }
  }

  lemma NoBody(octets: seq<byte>, canonical: bool, level: int)
    ensures Body(octets, 0, canonical, level) == "" && Row(octets, 0, 0) == ""
  {
  }

  lemma BodyStep(octets: seq<byte>, i: nat, canonical: bool, level: int)
    requires i < |octets|
    ensures Body(octets, i + 1, canonical, level)
         == Body(octets, i, canonical, level) + (Line(i, canonical, level) + OctetText(octets[i]))
  {
  }

  lemma {:induction false} BodyRows(octets: seq<byte>, i: nat, level: int)
    requires 0 < i <= |octets|
    ensures Body(octets, i, false, level) == (Body(octets, RowStart(i), false, level) + Indent(level)) + Row(octets, RowStart(i), i)
    decreases i
  {
    hide OctetText, Indent, Body, Row;
    var start := RowStart(i);
    BodyStep(octets, i - 1, false, level);
    RowStep(octets, i - 1);
    var text := OctetText(octets[i - 1]);
    if (i - 1) % 8 == 0 {
      assert start == i - 1;
      assert "" + text == text;
      Associate(Body(octets, i - 1, false, level), Indent(level), text);
    } else {
      BodyRows(octets, i - 1, level);
      assert "" + text == text;
      Associate(Body(octets, start, false, level) + Indent(level), Row(octets, start, i - 1), text);
    }
  }

  // ----- where the new lines stand -----

  /** The layout the indented form is after: a new line in front of every octet whose number is a multiple of eight,
      the last one included. */
  function RegularText(h: Held, level: int): string
    requires h.unused <= 7
  {
    var n := if h.octets == [] then 0 else |h.octets| - 1;
    (Body(h.octets, n, false, level) + Line(n, false, level)) + LastText(h) + Indent(level - 1)
  }

  /** Where the digits of octet i stand, behind so many new lines of that length. */
  function Place(i: nat, line: nat): nat { 8 * i + (i / 8 + 1) * line }

  /** Octet i in its place, a row's first one behind its new line. */
  predicate StandsAt(text: string, octets: seq<byte>, i: nat, level: int)
    requires i < |octets|
  {
    var p, line := Place(i, |Indent(level)|), Indent(level);
    p + 8 <= |text| && text[p..p + 8] == BitsText(NatToBits(octets[i], 8)) && (i % 8 == 0 ==> text[p - |line|..p] == line)
  }

  lemma PlaceStep(i: nat, line: nat)
    ensures Place(i + 1, line) == Place(i, line) + 8 + if (i + 1) % 8 == 0 then line else 0
    ensures i % 8 == 0 ==> Place(i, line) >= line
  {
    if (i + 1) % 8 == 0 {
      assert (i + 1) / 8 == i / 8 + 1;
      assert (i / 8 + 1 + 1) * line == (i / 8 + 1) * line + line;
    } else {
      assert (i + 1) / 8 == i / 8;
    }
  }

  lemma StaysAt(text: string, more: string, octets: seq<byte>, i: nat, level: int)
    requires i < |octets| && StandsAt(text, octets, i, level)
    ensures StandsAt(text + more, octets, i, level)
  {
    PlaceStep(i, |Indent(level)|);
    hide BitsText, NatToBits, Indent, Place;
    var p, line := Place(i, |Indent(level)|), Indent(level);
    assert (text + more)[p..p + 8] == text[p..p + 8];
    if i % 8 == 0 { assert (text + more)[p - |line|..p] == text[p - |line|..p]; }
  }

  lemma {:induction false} BodyAt(octets: seq<byte>, n: nat, level: int)
    requires n <= |octets|
    ensures |Body(octets, n, false, level)| + (if n % 8 == 0 then |Indent(level)| else 0) == Place(n, |Indent(level)|)
    ensures forall i :: 0 <= i < n ==> StandsAt(Body(octets, n, false, level), octets, i, level)
  {
    if n > 0 {
      hide BitsText, NatToBits, Indent, Place, StandsAt;
      BodyAt(octets, n - 1, level);
      PlaceStep(n - 1, |Indent(level)|);
      var before, line := Body(octets, n - 1, false, level), Line(n - 1, false, level);
      var piece := line + OctetText(octets[n - 1]);
      forall i | 0 <= i < n - 1 ensures StandsAt(before + piece, octets, i, level) { StaysAt(before, piece, octets, i, level); }
      OctetStandsAt(before, octets, n - 1, level);
    }
  }

  lemma OctetStandsAt(before: string, octets: seq<byte>, i: nat, level: int)
    requires i < |octets| && |before| + |Line(i, false, level)| == Place(i, |Indent(level)|)
    ensures StandsAt(before + (Line(i, false, level) + OctetText(octets[i])), octets, i, level)
  {
    hide BitsText, NatToBits, Indent, Place;
    var line, text := Line(i, false, level), OctetText(octets[i]);
    var all := before + (line + text);
    assert all[|before|..|before| + |line|] == line && all[|before| + |line|..|before| + |line| + 8] == text;
  }

  /** The regular layout character by character: eight digits an octet, a new line before every eighth octet, the used
      digits of the last octet behind those of the others, and a new line one level out at the end. */
  lemma RegularExactly(h: Held, level: int)
    requires h.unused <= 7 && h.octets != []
    ensures var text, n, line := RegularText(h, level), |h.octets| - 1, Indent(level);
            var p := Place(n, |line|);
            && (forall i :: 0 <= i < n ==> StandsAt(text, h.octets, i, level))
            && (n % 8 == 0 ==> p >= |line| && |text| >= p && text[p - |line|..p] == line)
            && |text| == p + 8 - h.unused + |Indent(level - 1)|
            && text[p..p + 8 - h.unused] == BitsText(NatToBits(h.octets[n], 8)[..8 - h.unused])
            && text[p + 8 - h.unused..] == Indent(level - 1)
  {
    hide BitsText, NatToBits, Indent, Place, StandsAt, LastText;
    var n := |h.octets| - 1;
    var body, line, last, tail := Body(h.octets, n, false, level), Line(n, false, level), LastText(h), Indent(level - 1);
    BodyAt(h.octets, n, level);
    LastDigits(h);
    var text := (body + line) + last + tail;
    assert text == body + (line + last + tail);
    forall i | 0 <= i < n ensures StandsAt(text, h.octets, i, level) { StaysAt(body, line + last + tail, h.octets, i, level); }
    var p := |body| + |line|;
    assert text[|body|..p] == line && text[p..p + |last|] == last && text[p + |last|..] == tail;
  }

  lemma LastDigits(h: Held)
    requires h.unused <= 7 && h.octets != []
    ensures LastText(h) == BitsText(NatToBits(h.octets[|h.octets| - 1], 8)[..8 - h.unused])
    ensures |LastText(h)| == 8 - h.unused
  {
    HighBits(h.octets[|h.octets| - 1], 8 - h.unused, h.unused);
  }

  lemma {:induction false} BodyDigits(octets: seq<byte>, n: nat, level: int)
    requires n <= |octets|
    ensures Body(octets, n, true, level) == BitsText(BytesToBits(octets[..n]))
  {
    if n > 0 {
      hide NatToBits;
      BodyDigits(octets, n - 1, level);
      assert octets[..n][..n - 1] == octets[..n - 1];
      BitsTextAppend(BytesToBits(octets[..n - 1]), NatToBits(octets[n - 1], 8));
      EmptyBefore(OctetText(octets[n - 1]));
    }
  }

  lemma UsedBits(h: Held, n: nat)
    requires h.unused <= 7 && |h.octets| == n + 1
    ensures Unpack(h) == BytesToBits(h.octets[..n]) + NatToBits(h.octets[n], 8)[..8 - h.unused]
  {
    BytesToBitsOne(h.octets[n]);
    hide NatToBits, BytesToBits;
    assert h.octets[n..n + 1] == [h.octets[n]];
    LeadingBits(h.octets, n, 1, 8 - h.unused, BytesToBits(h.octets), BytesToBits(h.octets[..n]), NatToBits(h.octets[n], 8));
  }

  lemma NothingUsed(h: Held)
    requires h.unused == 0 && h.octets == []
    ensures Body([], 0, true, 0) + LastText(h) == "" == BitsText(Unpack(h))
  {
    EmptyLast(h);
  }

  /** The canonical text is the digits of the used bits and nothing else. */
  lemma CanonicalExactly(h: Held, level: int)
    requires h.unused <= 7 && (h.unused > 0 ==> h.octets != [])
    ensures XerText(h, true, level) == BitsText(Unpack(h))
  {
    hide BitsText, NatToBits, LastText, BytesToBits, Body, Unpack, Indent;
    var n := if h.octets == [] then 0 else |h.octets| - 1;
    BodyDigits(h.octets, n, level);
    var body, last := Body(h.octets, n, true, level), LastText(h);
    assert (body + last) + "" == body + last;
    if h.octets == [] {
      NothingUsed(h);
    } else {
      LastDigits(h);
      UsedBits(h, n);
      BitsTextAppend(BytesToBits(h.octets[..n]), NatToBits(h.octets[n], 8)[..8 - h.unused]);
    }
  }

  lemma {:induction false} RowBeginsInDigit(octets: seq<byte>, lo: nat, hi: nat)
    requires lo < hi <= |octets|
    ensures Row(octets, lo, hi) != "" && Row(octets, lo, hi)[0] != '\n'
    decreases hi
  {
    hide NatToBits;
    if lo < hi - 1 {
      RowBeginsInDigit(octets, lo, hi - 1);
    } else {
      assert Row(octets, lo, lo) == "";
      DigitFirst(NatToBits(octets[lo], 8));
    }
  }

  lemma {:induction false} DigitFirst(bits: seq<bit>)
    requires bits != []
    ensures BitsText(bits)[0] != '\n'
  {
    if |bits| > 1 { DigitFirst(bits[..|bits| - 1]); }
  }

  lemma IndentBeginsInNewLine(level: int)
    ensures Indent(level) != "" && Indent(level)[0] == '\n'
  {
  }

  lemma Misplaced(before: string, line: string, row: string)
    requires line != "" && row != "" && line[0] != row[0]
    ensures before + (line + row) != (before + row) + line
  {
    var a, b := before + (line + row), (before + row) + line;
    assert a[|before|] == line[0] && b[|before|] == row[0];
  }

  /** The last octet's new line is in its place exactly when that octet does not begin a row, or is the only one. */
  lemma FrontIsRegularExactly(octets: seq<byte>, n: nat, level: int)
    requires n <= |octets|
    ensures Front(octets, n, false, level) == Body(octets, n, false, level) + Line(n, false, level) <==> n % 8 != 0 || n == 0
  {
    hide Indent, Row, Body;
    if n % 8 != 0 {
      Associate(Body(octets, n, false, level), [], []);
    } else if n == 0 {
      NoBody(octets, false, level);
      EmptyBefore(Indent(level));
    } else {
      RowStartBefore(n);
      BodyRows(octets, n, level);
      RowBeginsInDigit(octets, n - 8, n);
      IndentBeginsInNewLine(level);
      Misplaced(Body(octets, n - 8, false, level) + Indent(level), Indent(level), Row(octets, n - 8, n));
    }
  }

  lemma RowStartBefore(n: nat)
    requires n % 8 == 0 && n > 0
    ensures n >= 8 && RowStart(n) == n - 8
  {
  }

  lemma EmptyBefore(s: string)
    ensures "" + s == s
  {
  }

  /** The whole text is laid out regularly unless the octets are 9, 17, 25, ... */
  lemma LayoutIsRegularExactly(h: Held, level: int)
    requires h.unused <= 7
    ensures XerText(h, false, level) == RegularText(h, level) <==> |h.octets| <= 1 || (|h.octets| - 1) % 8 != 0
  {
    hide Front, Body, Line, LastText, Indent;
    var n := if h.octets == [] then 0 else |h.octets| - 1;
    FrontIsRegularExactly(h.octets, n, level);
    var front, regular := Front(h.octets, n, false, level), Body(h.octets, n, false, level) + Line(n, false, level);
    if front + LastText(h) + Indent(level - 1) == regular + LastText(h) + Indent(level - 1) {
      SplitTail(front + LastText(h), Indent(level - 1), regular + LastText(h));
      SplitTail(front, LastText(h), regular);
    }
  }

  /** Otherwise the text is the regular one but for the last octet's new line, which stands before the row instead of
      behind it. */
  lemma MisplacedLine(h: Held, level: int)
    requires h.unused <= 7 && |h.octets| > 1 && (|h.octets| - 1) % 8 == 0
    ensures var regular, line := RegularText(h, level), Indent(level);
            var end := Place(|h.octets| - 1, |line|) - |line|;
            && 64 <= end && end + |line| <= |regular|
            && XerText(h, false, level) == regular[..end - 64] + line + regular[end - 64..end] + regular[end + |line|..]
  {
    var n, line := |h.octets| - 1, Indent(level);
    hide *;
    RowEnd(h.octets, n, level);
    MisplacedIs(h, n, level);
    var before, row, tail := Body(h.octets, n - 8, false, level), Row(h.octets, n - 8, n), Indent(level - 1);
    MovedLine(before, line, row, LastText(h), tail, XerText(h, false, level), RegularText(h, level), Place(n, |line|) - |line|);
  }

  lemma MisplacedIs(h: Held, n: nat, level: int)
    requires h.unused <= 7 && |h.octets| == n + 1 && n % 8 == 0 && n >= 8
    ensures var before, line, row := Body(h.octets, n - 8, false, level), Indent(level), Row(h.octets, n - 8, n);
            && RegularText(h, level) == (Body(h.octets, n, false, level) + line) + LastText(h) + Indent(level - 1)
            && XerText(h, false, level) == ((before + line) + (line + row)) + LastText(h) + Indent(level - 1)
  {
    hide Body, Row, Indent, LastText;
  }

  lemma RowEnd(octets: seq<byte>, n: nat, level: int)
    requires 0 < n <= |octets| && n % 8 == 0
    ensures n >= 8
    ensures Body(octets, n, false, level) == (Body(octets, n - 8, false, level) + Indent(level)) + Row(octets, n - 8, n)
    ensures Place(n, |Indent(level)|) == |Body(octets, n, false, level)| + |Indent(level)|
  {
    BodyAt(octets, n, level);
    BodyRows(octets, n, level);
    RowStartBefore(n);
  }

  lemma MovedLine(before: string, line: string, row: string, last: string, tail: string, text: string, regular: string, end: int)
    requires |row| == 64 && regular == ((before + line + row) + line) + last + tail && end == |before| + |line| + |row|
    requires text == ((before + line) + (line + row)) + last + tail
    ensures 64 <= end && end + |line| <= |regular|
    ensures text == regular[..end - 64] + line + regular[end - 64..end] + regular[end + |line|..]
  {
    assert regular[..end - 64] == before + line && regular[end - 64..end] == row;
    assert regular[end + |line|..] == last + tail;
  }

  /** Nine octets: both new lines come first, then all the digits on one line. */
  lemma NineOctets(h: Held, level: int)
    requires |h.octets| == 9 && h.unused <= 7
    ensures XerText(h, false, level)
         == (Indent(level) + (Indent(level) + Row(h.octets, 0, 8))) + LastText(h) + Indent(level - 1)
    ensures XerText(h, false, level) != RegularText(h, level)
  {
    hide Indent, Row, LastText;
    LayoutIsRegularExactly(h, level);
    NoBody(h.octets, false, level);
    EmptyBefore(Indent(level));
  }

  /** What was flushed before the line in the scratch buffer. */
  lemma HeldRow(octets: seq<byte>, n: nat, level: int, out: string, held: string)
    requires n <= |octets| && n % 8 == 0 && held == Row(octets, RowStart(n), n) && out + held == Body(octets, n, false, level)
    ensures out + (Indent(level) + held) == Front(octets, n, false, level)
  {
    hide Indent, Body, Row;
    if n == 0 {
      NoBody(octets, false, level);
      NothingHeld(out, held, Indent(level));
    } else {
      assert RowStart(n) == n - 8;
      BodyRows(octets, n, level);
      SplitTail(out, held, Body(octets, n - 8, false, level) + Indent(level));
    }
  }

  lemma NothingHeld(out: string, held: string, line: string)
    requires out + held == ""
    ensures out + (line + held) == line
  {
    assert |out + held| == 0;
  }

  lemma SplitTail<T>(a: seq<T>, b: seq<T>, c: seq<T>)
    requires a + b == c + b
    ensures a == c
  {
    assert |a| == |c|;
    assert (a + b)[..|a|] == a && (c + b)[..|c|] == c;
  }

  lemma OctetTextBits(b: byte)
    ensures IsBinaryText(OctetText(b)) && TextBits(OctetText(b)) == NatToBits(b, 8)
  {
    BitsTextBits(NatToBits(b, 8));
  }

  lemma LastBits(h: Held, all: seq<bit>, whole: seq<bit>)
    requires h.unused <= 7 && h.octets != [] && all == BytesToBits(h.octets) && whole == BytesToBits(h.octets[..|h.octets| - 1])
    ensures IsBinaryText(LastText(h)) && whole + TextBits(LastText(h)) == all[..8 * |h.octets| - h.unused]
  {
    var n, last := |h.octets| - 1, h.octets[|h.octets| - 1];
    HighBits(last, 8 - h.unused, h.unused);
    BitsTextBits(NatToBits(last / P2(h.unused), 8 - h.unused));
    BytesToBitsOne(last);
    hide TextBits, NatToBits, P2, BytesToBits;
    assert h.octets[n..n + 1] == [last];
    LeadingBits(h.octets, n, 1, 8 - h.unused, all, whole, NatToBits(last, 8));
  }

  /** The printed text has the bits of the string, whatever stands in the unused ones. */
  lemma XerTextBits(h: Held, canonical: bool, level: int)
    requires h.unused <= 7 && (h.unused > 0 ==> h.octets != [])
    ensures IsBinaryText(XerText(h, canonical, level)) && TextBits(XerText(h, canonical, level)) == Unpack(h)
  {
    hide TextBits, IsBinaryText, Front, LastText, Indent, BytesToBits;
    var n := if h.octets == [] then 0 else |h.octets| - 1;
    var body, last := Front(h.octets, n, canonical, level), LastText(h);
    var tail := if canonical then "" else Indent(level - 1);
    FrontBits(h.octets, n, canonical, level);
    SpaceHasNoBits(tail);
    if h.octets == [] {
      SpaceHasNoBits("");
      EmptyLast(h);
      assert h.octets[..0] == h.octets;
      assert Unpack(h) == BytesToBits(h.octets[..n]) + [];
    } else {
      LastBits(h, BytesToBits(h.octets), BytesToBits(h.octets[..n]));
    }
    BinaryTextAppend(body, last);
    BinaryTextAppend(body + last, tail);
    assert TextBits(body) + TextBits(last) + [] == TextBits(body) + TextBits(last);
  }

  lemma EmptyLast(h: Held)
    requires h.unused == 0 && h.octets == []
    ensures LastText(h) == "" && BytesToBits(h.octets) == []
  {
  }

  lemma SplitSum<T>(a: seq<T>, x: seq<T>, b: seq<T>, y: seq<T>)
    requires a + x == b + y && |a| == |b|
    ensures a == b && x == y
  {
    assert (a + x)[..|a|] == a && (a + x)[|a|..] == x && (b + y)[..|b|] == b && (b + y)[|b|..] == y;
  }

  lemma SameOctet(a: byte, b: byte)
    requires NatToBits(a, 8) == NatToBits(b, 8)
    ensures a == b
  {
    P2Of8();
    NatBitsNat(a, 8);
    NatBitsNat(b, 8);
  }

  lemma {:induction false} SameOctets(a: seq<byte>, b: seq<byte>)
    requires BytesToBits(a) == BytesToBits(b)
    ensures a == b
  {
    hide NatToBits, P2;
    assert |a| == |b|;
    if a != [] {
      var fa, fb, x, y := a[..|a| - 1], b[..|b| - 1], a[|a| - 1], b[|b| - 1];
      SplitSum(BytesToBits(fa), NatToBits(x, 8), BytesToBits(fb), NatToBits(y, 8));
      SameOctets(fa, fb);
      SameOctet(x, y);
      assert a == fa + [x] && b == fb + [y];
    }
  }

  /** The unused bits of a proper string are zero. */
  lemma ProperZeros(h: Held)
    requires Proper(h)
    ensures BytesToBits(h.octets) == Unpack(h) + NatToBits(0, h.unused)
  {
    if h.unused > 0 {
      var front, last := h.octets[..|h.octets| - 1], h.octets[|h.octets| - 1];
      assert h.octets == front + [last];
      DivMod(last, P2(h.unused));
      BytesToBitsAppend(front, [last]);
      BytesToBitsOne(last);
      HeadThenZeros(last, last / P2(h.unused), h.unused);
      hide BytesToBits, NatToBits, P2;
      var whole, high, zeros := BytesToBits(front), NatToBits(last / P2(h.unused), 8 - h.unused), NatToBits(0, h.unused);
      Associate(whole, high, zeros);
      assert ((whole + high) + zeros)[..|whole| + |high|] == whole + high;
    } else {
      assert Unpack(h) + [] == BytesToBits(h.octets);
    }
  }

  /** Printing and parsing, canonical or indented: from the empty string, the parser returns the same bits and
      bits_unused; and the same octets, if the unused bits were zero. */
  lemma XerRoundTrip(h: Held, canonical: bool, level: int)
    requires h.unused <= 7 && (h.unused > 0 ==> h.octets != [])
    ensures var s := XerText(h, canonical, level);
            var parsed := PushAll(Held([], 0), TextBits(s));
            && IsBinaryText(s) && Unpack(parsed) == Unpack(h) && parsed.unused == h.unused
            && (Proper(h) ==> parsed == h)
  {
    hide XerText, TextBits, IsBinaryText, Push, PushAll, BytesToBits, NatToBits, P2;
    XerTextBits(h, canonical, level);
    UnpackPack(Unpack(h));
    var parsed := Pack(Unpack(h));
    if Proper(h) {
      ProperZeros(h);
      SameOctets(parsed.octets, h.octets);
    }
  }

  // ----- the parser -----

  class BitString {
    var buf: array<byte>
    var size: nat
    var bitsUnused: nat

    /** CALLOC(1, 1): what the caller provides before the first chunk. */
    constructor ()
      ensures Valid() && fresh(buf) && Value() == Held([], 0)
    {
      buf := new byte[1](_ => 0);
      size, bitsUnused := 0, 0;
    }

    /** The octet after the contents is the zero of the courtesy termination. */
    predicate Valid()
      reads this, buf
    {
      size < buf.Length && buf[size] == 0 && Proper(Held(buf[..size], bitsUnused))
    }

    function Value(): Held
      requires size <= buf.Length
      reads this, buf
    {
      Held(buf[..size], bitsUnused)
    }

    /** REALLOC(st->buf, length): what was stored stays, the rest is arbitrary. */
    method Realloc(length: nat)
      requires Valid() && size < length
      modifies this`buf
      ensures fresh(buf) && buf.Length == length && buf[..size + 1] == old(buf[..size + 1])
    {
      var fresher := new byte[length];
      var i := 0;
      while i <= size
        invariant buf == old(buf) && 0 <= i <= size + 1
        invariant fresher[..i] == old(buf[..i])
      {
        fresher[i] := buf[i];
        i := i + 1;
      }
      buf := fresher;
    }

    /** The value while scanning: the cursor b and the bits unused in its octet, 8 when it is not begun. */
    ghost predicate At(b: nat, unused: nat, h: Held)
      reads this, buf
    {
      && b < buf.Length && unused <= 8
      && if unused == 8 then h == Held(buf[..b], 0) && buf[b] == 0 else h == Held(buf[..b + 1], unused)
    }

    /** *buf |= (ch & 1) << bits_unused, in a clean cell if the current one is full. */
    method PutBit(b0: nat, unused0: nat, b1: bit, ghost h: Held) returns (b: nat, unused: nat)
      requires At(b0, unused0, h) && Proper(h) && (unused0 == 0 ==> b0 + 1 < buf.Length)
      modifies buf
      ensures At(b, unused, Push(h, b1)) && unused <= 7
    {
      ghost var before := buf[..b0 + 1];
      if unused0 <= 0 {
        b, unused := b0 + 1, 7;
        buf[b] := 0;
      } else {
        b, unused := b0, unused0 - 1;
      }
      SevenBits();
      assert buf[..b0 + 1] == before;
      ghost var last := buf[b];
      if 1 <= unused0 <= 7 { PushFits(last, unused0, b1); }
      buf[b] := buf[b] + b1 * P2(unused);
    }

    /** memcpy of two entries of _bit_pattern at the scratch cursor. */
    static method PutOctet(scratch: array<char>, p: nat, b: byte)
      requires p + 8 <= scratch.Length
      modifies scratch
      ensures scratch[..p + 8] == old(scratch[..p]) + OctetText(b)
    {
      TwoPatterns(b);
      var pattern := Pattern(b / 16) + Pattern(b % 16);
      forall k | 0 <= k < 8 { scratch[p + k] := pattern[k]; }
      assert scratch[..p] == old(scratch[..p]);
      assert scratch[p..p + 8] == pattern;
      assert scratch[..p + 8] == scratch[..p] + scratch[p..p + 8];
    }

    /** The loop over all octets but the last; the scratch buffer is flushed when 118 characters are in, and before a
        new line. */
    static method DumpWhole(octets: seq<byte>, n: nat, scratch: array<char>, canonical: bool, level: int) returns (out: string)
      requires scratch.Length == 128 && n <= |octets|
      modifies scratch
      ensures out == Front(octets, n, canonical, level)
    {
      hide Body, Indent, OctetText, Row;
      var p, i := 0, 0;
      out := "";
      NoBody(octets, canonical, level);
      while i < n
        invariant 0 <= i <= n && p <= 125
        invariant out + scratch[..p] == Body(octets, i, canonical, level)
        invariant !canonical ==> scratch[..p] == Row(octets, RowStart(i), i)
      {
        ghost var before := out + scratch[..p];
        var nline := !canonical && i % 8 == 0;
        if p >= 118 || nline {
          out := out + scratch[..p];
          p := 0;
          if nline { out := out + Indent(level); }
        }
        ghost var held := scratch[..p];
        assert out + held == before + Line(i, canonical, level);
        PutOctet(scratch, p, octets[i]);
        BodyStep(octets, i, canonical, level);
        RowStep(octets, i);
        Associate(out, held, OctetText(octets[i]));
        Associate(before, Line(i, canonical, level), OctetText(octets[i]));
        p, i := p + 8, i + 1;
      }
      if !canonical && i % 8 == 0 {
        HeldRow(octets, n, level, out, scratch[..p]);
        Associate(out, Indent(level), scratch[..p]);
        out := out + Indent(level);
      }
      out := out + scratch[..p];
    }

    /** The loop over the used bits of the last octet. */
    static method DumpLast(v: byte, unused: nat) returns (out: string)
      requires unused <= 7
      ensures v / P2(unused) >= 0 && out == BitsText(NatToBits(v / P2(unused), 8 - unused))
    {
      hide P2, NatToBits, BitsText;
      NoBitsAbove(v);
      NoBitText(v / P2(8));
      out := "";
      var i: int := 7;
      while i >= unused
        invariant unused - 1 <= i <= 7
        invariant v / P2(i + 1) >= 0 && out == BitsText(NatToBits(v / P2(i + 1), 7 - i))
        decreases i
      {
        NextHigher(v, i, 7 - i);
        BitsTextSnoc(NatToBits(v / P2(i + 1), 7 - i), v / P2(i) % 2);
        out := out + [if v / P2(i) % 2 == 1 then '1' else '0'];
        i := i - 1;
      }
    }

    /** BIT_STRING_encode_xer; out is all that the callback consumed. */
    static method EncodeXer(h: Held, canonical: bool, level: int) returns (out: string)
      requires h.unused <= 7
      ensures out == XerText(h, canonical, level)
    {
      hide Front, Indent;
      var scratch := new char[128];
      if h.octets == [] {
        out := DumpWhole(h.octets, 0, scratch, canonical, level);
      } else {
        out := DumpWhole(h.octets, |h.octets| - 1, scratch, canonical, level);
        var last := DumpLast(h.octets[|h.octets| - 1], h.unused);
        out := out + last;
      }
      if !canonical { out := out + Indent(level - 1); }
    }

    /** The loop over the characters, from the first unused bit on. */
    method ScanBits(chunk: string, b0: nat, unused0: nat, ghost h: Held) returns (ok: bool, b: nat, unused: nat)
      requires Proper(h) && At(b0, unused0, h) && |h.octets| + (|chunk| + 7) / 8 < buf.Length
      modifies buf
      ensures ok <==> IsBinaryText(chunk)
      ensures ok ==> At(b, unused, PushAll(h, TextBits(chunk)))
    {
      hide Push, TextBits, Proper;
      b, unused := b0, unused0;
      var p := 0;
      NoText(chunk, h);
      while p < |chunk|
        invariant 0 <= p <= |chunk|
        invariant IsBinaryText(chunk[..p]) && At(b, unused, PushAll(h, TextBits(chunk[..p])))
      {
        var ch := chunk[p];
        ghost var now := PushAll(h, TextBits(chunk[..p]));
        assert chunk[..p + 1] == chunk[..p] + [ch];
        if IsBinary(ch) {
          b, unused := PutBit(b, unused, BitOf(ch), now);
        } else if !IsXerSpace(ch) {
          return false, b, unused;
        }
        OneMore(h, chunk[..p], ch);
        p := p + 1;
      }
      assert chunk[..p] == chunk;
      ok := true;
    }

    /** OCTET_STRING__convert_binary. The write index never passes the size reserved from the chunk size. */
    method ConvertBinary(chunk: string) returns (r: int)
      requires Valid()
      modifies this
      ensures r == if IsBinaryText(chunk) then |chunk| else -1
      ensures IsBinaryText(chunk) ==> Valid() && fresh(buf) && Value() == PushAll(old(Value()), TextBits(chunk))
      ensures IsBinaryText(chunk) ==> size <= old(size) + (|chunk| + 7) / 8
    {
      hide Push, P2, TextBits, PushAll;
      ghost var h := Value();
      Realloc(size + (|chunk| + 7) / 8 + 1);
      assert buf[..size] == buf[..size + 1][..size];
      var b, unused := size, bitsUnused;
      if unused == 0 {
        unused := 8;
      } else if size > 0 {
        b := b - 1;
      }
      var ok;
      ok, b, unused := ScanBits(chunk, b, unused, h);
      if !ok {
        bitsUnused := unused;
        return -1;
      }
      if unused == 8 {
        size, bitsUnused := b, 0;
      } else {
        size, bitsUnused := b + 1, unused;
      }
      ghost var value := Value();
      buf[size] := 0;
      assert Value() == value;
      r := |chunk|;
    }
  }

  /** Bit i comes after the bits above it. */
  lemma NextHigher(v: nat, i: nat, n: nat)
    ensures v / P2(i + 1) >= 0 && v / P2(i) >= 0
    ensures NatToBits(v / P2(i), n + 1) == NatToBits(v / P2(i + 1), n) + [v / P2(i) % 2]
  {
    DivMod(v, P2(i));
    DivMod(v, P2(i + 1));
    HalfQuotient(v, P2(i));
    assert NatToBits(v / P2(i), n + 1) == NatToBits(v / P2(i) / 2, n) + [v / P2(i) % 2];
  }

  lemma HalfQuotient(v: nat, p: nat)
    requires p > 0
    ensures v / (2 * p) == v / p / 2
  {
    var q, r := v / p, v % p;
    DivMod(v, p);
    var q', r' := q / 2, q % 2;
    assert v == q' * (2 * p) + (r' * p + r);
    DivUnique(v, 2 * p, q', r' * p + r);
  }

  lemma NoBitText(v: nat)
    ensures BitsText(NatToBits(v, 0)) == ""
  {
  }

  lemma NoBitsAbove(v: byte)
    ensures v / P2(8) == 0
  {
    P2Of8();
  }

  lemma BitsTextSnoc(bits: seq<bit>, b: bit)
    ensures BitsText(bits + [b]) == BitsText(bits) + [if b == 1 then '1' else '0']
  {
    assert (bits + [b])[..|bits|] == bits;
  }

  lemma NoText(chunk: string, h: Held)
    requires Proper(h)
    ensures PushAll(h, TextBits(chunk[..0])) == h && IsBinaryText(chunk[..0])
  {
  }

  lemma OneMore(h: Held, s: string, c: char)
    requires Proper(h) && IsBinaryText(s) && (IsBinary(c) || IsXerSpace(c))
    ensures IsBinaryText(s + [c])
    ensures PushAll(h, TextBits(s + [c]))
         == if IsBinary(c) then Push(PushAll(h, TextBits(s)), BitOf(c)) else PushAll(h, TextBits(s))
  {
    hide Push, TextBits;
    var t := s + [c];
    assert t[..|t| - 1] == s;
    TextBitsSnoc(t);
    PushAllSnoc(h, TextBits(s), BitOf(c));
    assert TextBits(s) + [] == TextBits(s);
  }

  lemma PushAllSnoc(h: Held, bits: seq<bit>, b: bit)
    requires Proper(h)
    ensures PushAll(h, bits + [b]) == Push(PushAll(h, bits), b)
  {
    assert (bits + [b])[..|bits|] == bits;
  }
}
