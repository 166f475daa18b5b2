/** The RAN name of a gNB: PLMN, gNB id and CU-UP or DU id in print (BuildRunName.h). */
module RanName {
  import opened Text
  import opened Bytes
  import opened BitSeqs
  import opened Seqs
  import E2Protocol

  // ----- numbers in print -----

  function Hex(d: nat): (c: char)
    requires d < 16
    ensures IsHex(c) && HexValue(c) == d
  {
    if d < 10 then (('0' as int) + d) as char else (('a' as int) + d - 10) as char
  }

  /** The n low hexadecimal digits of v. */
  function HexDigits(v: nat, n: nat): (r: string)
    ensures |r| == n && forall i :: 0 <= i < n ==> IsHex(r[i])
  {
    if n == 0 then "" else HexDigits(v / 16, n - 1) + [Hex(v % 16)]
  }

  /** "%lx" of a number that is not negative. */
  function HexNumber(v: nat): (r: string)
    ensures r != "" && forall i :: 0 <= i < |r| ==> IsHex(r[i])
  {
    if v < 16 then [Hex(v)] else HexNumber(v / 16) + [Hex(v % 16)]
  }

  lemma HexExactly(d: nat)
    requires d < 16
    ensures Hex(d) == "0123456789abcdef"[d]
  {
  }

  predicate AllHex(s: string) { forall i :: 0 <= i < |s| ==> IsHex(s[i]) && !('A' <= s[i] <= 'F') }

  /** The number a row of hexadecimal digits denotes. */
  function Hexadecimal(s: string): nat
    requires AllHex(s)
  {
    if s == "" then 0 else Hexadecimal(s[..|s| - 1]) * 16 + HexValue(s[|s| - 1])
  }

  /** The numeral of v: lower-case digits without superfluous zeros. */
  predicate IsNumeral(s: string, v: nat)
  {
    s != "" && AllHex(s) && Hexadecimal(s) == v && (|s| > 1 ==> s[0] != '0')
  }

  lemma HexadecimalSnoc(s: string, d: nat)
    requires AllHex(s) && d < 16
    ensures AllHex(s + [Hex(d)]) && Hexadecimal(s + [Hex(d)]) == Hexadecimal(s) * 16 + d
  {
    assert (s + [Hex(d)])[..|s|] == s;
  }

  lemma {:induction false} HexDigitsDenote(v: nat, n: nat)
    requires v < P2(4 * n)
    ensures AllHex(HexDigits(v, n)) && Hexadecimal(HexDigits(v, n)) == v
    decreases n
  {
    if n > 0 {
      FourBits(n - 1);
      HexDigitsDenote(v / 16, n - 1);
      HexadecimalSnoc(HexDigits(v / 16, n - 1), v % 16);
    }
  }

  lemma {:induction false} HexNumberIsNumeral(v: nat)
    ensures IsNumeral(HexNumber(v), v) && (v > 0 ==> HexNumber(v)[0] != '0')
  {
    if v < 16 {
      HexadecimalSnoc("", v);
      assert "" + [Hex(v)] == [Hex(v)];
    } else {
      HexNumberIsNumeral(v / 16);
      HexadecimalSnoc(HexNumber(v / 16), v % 16);
    }
  }

  /** "%1d" of a half octet. */
  function Decimal(d: nat): (r: string)
    requires d < 16
    ensures d < 10 ==> |r| == 1
  {
    if d < 10 then [Hex(d)] else ['1', Hex(d - 10)]
  }

  // ----- PLMN -----

  datatype Plmn = Plmn(a: byte, b: byte, c: byte)

  /** translatePlmnId; with a prefix of at most five characters the buffer of 20 holds it whole. */
  function PlmnText(p: Plmn): (r: string)
    ensures |r| <= 13
  {
    Decimal(p.a % 16) + Decimal(p.a / 16) + Decimal(p.b % 16) + "_"
    + if p.b / 16 != 15 then Decimal(p.b / 16) + Decimal(p.c % 16) + Decimal(p.c / 16)
      else "0" + Decimal(p.c % 16) + Decimal(p.c / 16)
  }

  /** Digits only, but for the filler of a two-digit MNC. */
  predicate IsBcd(p: Plmn)
  {
    && p.a % 16 <= 9 && p.a / 16 <= 9 && p.b % 16 <= 9 && p.c % 16 <= 9 && p.c / 16 <= 9
    && (p.b / 16 <= 9 || p.b / 16 == 15)
  }

  /** The first MNC digit, 0 for a two-digit MNC. */
  function FirstMnc(p: Plmn): int { if p.b / 16 == 15 then 0 else p.b / 16 }

  predicate SamePlmn(p: Plmn, q: Plmn)
  {
    p.a == q.a && p.c == q.c && p.b % 16 == q.b % 16 && FirstMnc(p) == FirstMnc(q)
  }

  /** The printed PLMN is the PLMN, but for a two-digit MNC and the same one with a leading zero. */
  lemma PlmnTextDetermines(p: Plmn, q: Plmn)
    requires IsBcd(p) && IsBcd(q)
    ensures |PlmnText(p)| == |PlmnText(q)| == 7
    ensures PlmnText(p) == PlmnText(q) <==> SamePlmn(p, q)
  {
    Seven(p);
    Seven(q);
    var s, t := PlmnText(p), PlmnText(q);
    if s == t {
      assert s[0] == t[0] && s[1] == t[1] && s[2] == t[2] && s[4] == t[4] && s[5] == t[5] && s[6] == t[6];
    }
  }

  lemma Seven(p: Plmn)
    requires IsBcd(p)
    ensures PlmnText(p) == [Hex(p.a % 16), Hex(p.a / 16), Hex(p.b % 16), '_', Hex(FirstMnc(p)), Hex(p.c % 16), Hex(p.c / 16)]
  {
  }

  /** The seven characters of a decimal PLMN: three digits of the country, low half octet first, an underscore, and
      three of the network, whose first is 0 for a network of two digits. */
  lemma PlmnDigits(p: Plmn)
    requires IsBcd(p)
    ensures var s := PlmnText(p);
            && |s| == 7 && s[3] == '_' && IsDigit(s[0]) && IsDigit(s[1]) && IsDigit(s[2]) && IsDigit(s[4]) && IsDigit(s[5]) && IsDigit(s[6])
            && DigitValue(s[0]) == p.a % 16 && DigitValue(s[1]) == p.a / 16 && DigitValue(s[2]) == p.b % 16
            && DigitValue(s[4]) == (if p.b / 16 == 15 then 0 else p.b / 16)
            && DigitValue(s[5]) == p.c % 16 && DigitValue(s[6]) == p.c / 16
  {
    Seven(p);
  }

  /** 02 F8 29 and 02 08 29 print alike. */
  lemma TwoDigitMncCollides()
    ensures var p, q := Plmn(0x02, 0xF8, 0x29), Plmn(0x02, 0x08, 0x29);
            IsBcd(p) && IsBcd(q) && p != q && PlmnText(p) == PlmnText(q)
  {
    var p, q := Plmn(0x02, 0xF8, 0x29), Plmn(0x02, 0x08, 0x29);
    PlmnTextDetermines(p, q);
  }

  // ----- the whole name -----

  /** The parts of a GlobalE2node_gNB_ID; an id that asn_INTEGER2long refuses is -1. */
  datatype Gnb = Gnb(plmn: Plmn, idPresent: bool, octets: seq<byte>, unused: nat, cuUp: Option<int>, du: Option<int>)

  predicate ValidId(g: Gnb) { g.unused <= 7 && (g.unused > 0 ==> g.octets != []) }

  function Prefix(g: Gnb): (r: string)
    ensures r == "gnb_" || r == "gnbc_" || r == "gnbd_"
  {
    if !g.idPresent || g.cuUp.Some? == g.du.Some? then "gnb_" else if g.cuUp.Some? then "gnbc_" else "gnbd_"
  }

  function Given(id: Option<int>): int { if id.Some? then id.value else -1 }

  /** The number after the last underscore: one of the ids, if not both are there. */
  function Suffix(g: Gnb): Option<nat>
  {
    var cu, du := Given(g.cuUp), Given(g.du);
    if cu >= 0 && du >= 0 then None else if cu >= 0 then Some(cu) else if du >= 0 then Some(du) else None
  }

  function SuffixText(s: Option<nat>): string
  {
    if s.Some? then "_" + HexNumber(s.value) else ""
  }

  /** The bit string as a number: big-endian, without the unused bits. */
  function IdValue(g: Gnb): nat
    requires ValidId(g)
  {
    UnsignedBits(g.octets);
    DivMod(Unsigned(g.octets), P2(g.unused));
    Unsigned(g.octets) / P2(g.unused)
  }

  function Name(g: Gnb): string
    requires ValidId(g)
  {
    Prefix(g) + PlmnText(g.plmn)
    + if g.idPresent then "_" + HexDigits(IdValue(g), 2 * |g.octets|) + SuffixText(Suffix(g)) else ""
  }

  // ----- the digits -----

  lemma {:induction false} HexDigitsInjective(v: nat, w: nat, n: nat)
    requires v < P2(4 * n) && w < P2(4 * n) && HexDigits(v, n) == HexDigits(w, n)
    ensures v == w
    decreases n
  {
    if n > 0 {
      var s, t := HexDigits(v / 16, n - 1), HexDigits(w / 16, n - 1);
      LastAndFront(s, t, Hex(v % 16), Hex(w % 16));
      FourBits(n - 1);
      HexDigitsInjective(v / 16, w / 16, n - 1);
    }
  }

  lemma LastAndFront(s: string, t: string, c: char, d: char)
    requires s + [c] == t + [d]
    ensures s == t && c == d
  {
    assert (s + [c])[|s|] == c && (t + [d])[|t|] == d;
    assert (s + [c])[..|s|] == s && (t + [d])[..|t|] == t;
  }

  lemma FourBits(n: nat)
    ensures P2(4 * n + 4) == 16 * P2(4 * n)
  {
    assert P2(4) == 16;
    P2Add(4, 4 * n);
  }

  lemma {:induction false} HexNumberInjective(v: nat, w: nat)
    requires HexNumber(v) == HexNumber(w)
    ensures v == w
  {
    if v >= 16 && w >= 16 {
      LastAndFront(HexNumber(v / 16), HexNumber(w / 16), Hex(v % 16), Hex(w % 16));
      HexNumberInjective(v / 16, w / 16);
    } else {
      assert |HexNumber(v)| == |HexNumber(w)|;
      assert HexNumber(v)[0] == HexNumber(w)[0];
    }
  }

  /** One octet more: two digits of its high bits and the low bits of the octet before it. */
  lemma DigitStep(before: nat, prev: byte, cur: byte, unused: nat, n: nat)
    requires unused <= 7 && before % 256 == prev
    ensures var digit := (prev * P2(8 - unused) + cur / P2(unused)) % 256;
            && 0 <= digit && before / P2(unused) >= 0 && (before * 256 + cur) / P2(unused) >= 0
            && HexDigits((before * 256 + cur) / P2(unused), n + 2)
               == HexDigits(before / P2(unused), n) + [Hex(digit / 16)] + [Hex(digit % 16)]
  {
    P2Of8();
    P2Add(8 - unused, unused);
    DivMod(before, P2(unused));
    DivMod(before * 256 + cur, P2(unused));
    var digit := Spliced(before, prev, cur, P2(unused), P2(8 - unused));
    TwoDigits((before * 256 + cur) / P2(unused), before / P2(unused), digit, n);
  }

  lemma TwoDigits(v: nat, front: nat, digit: nat, n: nat)
    requires v == front * 256 + digit && digit < 256
    ensures HexDigits(v, n + 2) == HexDigits(front, n) + [Hex(digit / 16)] + [Hex(digit % 16)]
  {
    assert v / 16 == front * 16 + digit / 16 && v % 16 == digit % 16;
    assert v / 16 / 16 == front && v / 16 % 16 == digit / 16;
    assert HexDigits(v / 16, n + 1) == HexDigits(front, n) + [Hex(digit / 16)];
  }

  lemma Room(r: nat, p: nat, c: nat, q: nat)
    requires r < p && c < q && q * p == 256
    ensures 0 <= r * q + c < 256
  {
    assert (r + 1) * q <= p * q;
  }

  /** Dividing by p | 256 sees only the low octet. */
  lemma LowOctetRemainder(before: nat, prev: byte, p: nat, q: nat)
    requires p > 0 && q * p == 256 && before % 256 == prev
    ensures prev % p == before % p
  {
    var b, r, h := before / 256, before % p, before / p;
    DivMod(before, p);
    assert before == 256 * b + prev;
    var k := h - q * b;
    Distribute(h, q, b, p);
    Coefficient(k, p, r, prev);
  }

  lemma Coefficient(k: int, p: nat, r: nat, prev: nat)
    requires p > 0 && r < p && prev == k * p + r
    ensures prev % p == r
  {
    assert k < 0 ==> k * p + p <= 0;
    DivUnique(prev, p, k, r);
  }

  lemma Distribute(h: int, q: int, b: int, p: int)
    ensures (h - q * b) * p == h * p - (q * p) * b
  {
  }

  /** The octet that straddles two: low bits of one, high bits of the next. */
  lemma Spliced(before: nat, prev: byte, cur: byte, p: nat, q: nat) returns (digit: nat)
    requires p > 0 && q * p == 256 && before % 256 == prev
    ensures digit == (prev * q + cur / p) % 256 && digit < 256
    ensures (before * 256 + cur) / p == before / p * 256 + digit
  {
    var r, c, h, g := before % p, cur / p, before / p, prev / p;
    DivMod(before, p);
    DivMod(cur, p);
    DivMod(prev, p);
    QuotientBound(cur, q, p);
    Room(r, p, c, q);
    LowOctetRemainder(before, prev, p, q);
    digit := r * q + c;
    Whole(before, h, r, p, q, cur, c, cur % p, digit);
    DivUnique(before * 256 + cur, p, h * 256 + digit, cur % p);
    Part(prev, g, r, p, q);
    DivUnique(prev * q + c, 256, g, digit);
  }

  lemma Whole(before: nat, h: nat, r: nat, p: nat, q: nat, cur: nat, c: nat, rest: nat, digit: nat)
    requires before == h * p + r && q * p == 256 && cur == c * p + rest && digit == r * q + c
    ensures before * 256 + cur == (h * 256 + digit) * p + rest
  {
    assert (r * q) * p == r * 256 by { assert (r * q) * p == r * (q * p); }
    assert (h * 256 + digit) * p == (h * p) * 256 + digit * p;
    assert digit * p == (r * q) * p + c * p;
  }

  lemma Part(prev: nat, g: nat, r: nat, p: nat, q: nat)
    requires prev == g * p + r && q * p == 256
    ensures prev * q >= 0 && prev * q == g * 256 + r * q
  {
    assert (g * p) * q == g * (p * q);
  }

  // ----- building the name -----

  /** translateBitStringToChar, on a name as a NUL-terminated string. */
  method TranslateBitString(ranName: string, octets: seq<byte>, unused: nat, cuid: int, duid: int) returns (name: string)
    requires unused <= 7
    ensures Unsigned(octets) / P2(unused) >= 0
    ensures name == ranName + "_" + HexDigits(Unsigned(octets) / P2(unused), 2 * |octets|)
                  + if cuid >= 0 && duid >= 0 then "" else if cuid >= 0 then "_" + HexNumber(cuid)
                    else if duid >= 0 then "_" + HexNumber(duid) else ""
  {
    hide HexDigits, HexNumber, P2, Hex;
    ghost var base := ranName + "_";
    name := ranName + "_";
    var i := 0;
    ghost var seen, digits := 0, "";
    NoOctets(octets, unused);
    while i < |octets|
      invariant 0 <= i <= |octets| && seen >= 0 && seen == Unsigned(octets[..i])
      invariant i > 0 ==> seen % 256 == octets[i - 1]
      invariant seen / P2(unused) >= 0 && name == base + HexDigits(seen / P2(unused), 2 * i)
    {
      var prev := if i == 0 then 0 else octets[i - 1];
      var digit := (prev * P2(8 - unused) + octets[i] / P2(unused)) % 256;
      DigitStep(seen, prev, octets[i], unused, 2 * i);
      NextOctet(octets, i);
      digits := HexDigits(seen / P2(unused), 2 * i);
      name := name + [Hex(digit / 16)];
      name := name + [Hex(digit % 16)];
      Regroup(base, digits, [Hex(digit / 16)], [Hex(digit % 16)]);
      seen := seen * 256 + octets[i];
      i := i + 1;
    }
    assert octets[..i] == octets;
    if cuid >= 0 && duid >= 0 {
      name := name + "";
    } else if cuid >= 0 {
      name := name + "_" + HexNumber(cuid);
      Associate(base + HexDigits(seen / P2(unused), 2 * i), "_", HexNumber(cuid));
    } else if duid >= 0 {
      name := name + "_" + HexNumber(duid);
      Associate(base + HexDigits(seen / P2(unused), 2 * i), "_", HexNumber(duid));
    } else {
      name := name + "";
    }
  }

  lemma NoOctets(octets: seq<byte>, unused: nat)
    ensures octets[..0] == [] && Unsigned(octets[..0]) == 0 && 0 / P2(unused) == 0
    ensures HexDigits(0, 0) == "" && 0 % 256 == 0
  {
  }

  lemma NextOctet(octets: seq<byte>, i: nat)
    requires i < |octets|
    ensures Unsigned(octets[..i + 1]) == Unsigned(octets[..i]) * 256 + octets[i]
    ensures (Unsigned(octets[..i]) * 256 + octets[i]) % 256 == octets[i]
  {
    var front := octets[..i];
    assert octets[..i + 1] == front + [octets[i]];
    UnsignedSnoc(front, octets[i]);
  }

  /** buildRanName for a gNB. */
  method BuildRanName(g: Gnb) returns (name: string)
    requires ValidId(g)
    ensures name == Name(g)
  {
    hide PlmnText, HexDigits, HexNumber, P2;
    var cuupid, duid := -1, -1;
    if g.idPresent {
      if g.cuUp.Some? && g.du.Some? {
        cuupid, duid := g.cuUp.value, g.du.value;
        name := "gnb_" + PlmnText(g.plmn);
      } else if g.du.None? && g.cuUp.None? {
        name := "gnb_" + PlmnText(g.plmn);
      } else if g.cuUp.Some? {
        cuupid := g.cuUp.value;
        name := "gnbc_" + PlmnText(g.plmn);
      } else {
        duid := g.du.value;
        name := "gnbd_" + PlmnText(g.plmn);
      }
      ghost var start, digits, tail := name, HexDigits(IdValue(g), 2 * |g.octets|), SuffixText(Suffix(g));
      name := TranslateBitString(name, g.octets, g.unused, cuupid, duid);
      assert start + "_" + digits + tail == start + ("_" + digits + tail);
    } else {
      name := "gnb_" + PlmnText(g.plmn);
      assert name + "" == name;
    }
  }

  // ----- what the name tells -----

  /** The digits written for the id are those of its value, and the value is that of its used bits. */
  lemma IdBits(g: Gnb)
    requires ValidId(g)
    ensures IdValue(g) < P2(8 * |g.octets| - g.unused)
    ensures BytesToBits(g.octets)[..8 * |g.octets| - g.unused] == NatToBits(IdValue(g), 8 * |g.octets| - g.unused)
  {
    var m := 8 * |g.octets| - g.unused;
    UnsignedBits(g.octets);
    HighBits(Unsigned(g.octets), m, g.unused);
    P2Add(m, g.unused);
    QuotientBound(Unsigned(g.octets), P2(m), P2(g.unused));
  }

  /** Where each part of a name is. */
  lemma Parts(g: Gnb, prefix: string, plmn: string, digits: string, tail: string)
    requires ValidId(g) && g.idPresent && IsBcd(g.plmn)
    requires prefix == Prefix(g) && plmn == PlmnText(g.plmn) && |plmn| == 7
    requires digits == HexDigits(IdValue(g), 2 * |g.octets|) && tail == SuffixText(Suffix(g))
    ensures var n := |prefix|;
            && Name(g)[..n] == prefix && Name(g)[n..n + 7] == plmn
            && Name(g)[n + 8..n + 8 + 2 * |g.octets|] == digits && Name(g)[n + 8 + 2 * |g.octets|..] == tail
            && |Name(g)| == n + 8 + 2 * |g.octets| + |tail|
  {
    hide PlmnText, HexDigits, SuffixText, Prefix;
    var n, k := |prefix|, |prefix| + 8 + 2 * |g.octets|;
    var s := Name(g);
    assert s == prefix + plmn + ("_" + digits + tail);
    Sliced(prefix, plmn, "_", digits, tail, s);
  }

  lemma Sliced(a: string, b: string, c: string, d: string, e: string, s: string)
    requires s == a + b + (c + d + e) && |c| == 1
    ensures |s| == |a| + |b| + 1 + |d| + |e|
    ensures s[..|a|] == a && s[|a|..|a| + |b|] == b
    ensures s[|a| + |b| + 1..|a| + |b| + 1 + |d|] == d && s[|a| + |b| + 1 + |d|..] == e
  {
  }

  lemma SuffixDetermined(s: Option<nat>, t: Option<nat>)
    requires SuffixText(s) == SuffixText(t)
    ensures s == t
  {
    if s.Some? && t.Some? {
      assert SuffixText(s)[1..] == HexNumber(s.value) && SuffixText(t)[1..] == HexNumber(t.value);
      HexNumberInjective(s.value, t.value);
    }
  }

  /** Of two names the same prefix: the fourth character tells. */
  lemma PrefixDetermined(g: Gnb, h: Gnb, s: string)
    requires |s| >= 5 && |Prefix(g)| <= 5 && |Prefix(h)| <= 5
    requires s[..|Prefix(g)|] == Prefix(g) && s[..|Prefix(h)|] == Prefix(h)
    ensures Prefix(g) == Prefix(h)
  {
    assert s[..|Prefix(g)|][3] == s[3] && s[..|Prefix(h)|][3] == s[3];
  }

  /** Among names with decimal PLMNs and ids of the same length, the name determines the kind of node, the PLMN (but
      for the leading zero of a two-digit MNC), the id and the CU-UP or DU number; and it depends on nothing else. */
  lemma NameDetermines(g: Gnb, h: Gnb)
    requires ValidId(g) && ValidId(h) && g.idPresent && h.idPresent && IsBcd(g.plmn) && IsBcd(h.plmn)
    requires |g.octets| == |h.octets| && g.unused == h.unused
    ensures Name(g) == Name(h) <==>
              && Prefix(g) == Prefix(h) && SamePlmn(g.plmn, h.plmn)
              && BytesToBits(g.octets)[..8 * |g.octets| - g.unused] == BytesToBits(h.octets)[..8 * |h.octets| - h.unused]
              && Suffix(g) == Suffix(h)
  {
    hide PlmnText, HexDigits, SuffixText, Prefix, P2, NatToBits, BytesToBits, Suffix, IdValue, Name;
    PlmnTextDetermines(g.plmn, h.plmn);
    Parts(g, Prefix(g), PlmnText(g.plmn), HexDigits(IdValue(g), 2 * |g.octets|), SuffixText(Suffix(g)));
    Parts(h, Prefix(h), PlmnText(h.plmn), HexDigits(IdValue(h), 2 * |h.octets|), SuffixText(Suffix(h)));
    IdBits(g);
    IdBits(h);
    var m, n := 8 * |g.octets| - g.unused, 2 * |g.octets|;
    P2Grows(m, 4 * n);
    if Name(g) == Name(h) {
      PrefixDetermined(g, h, Name(g));
      HexDigitsInjective(IdValue(g), IdValue(h), n);
      SuffixDetermined(Suffix(g), Suffix(h));
    }
    if NatToBits(IdValue(g), m) == NatToBits(IdValue(h), m) {
      NatBitsNat(IdValue(g), m);
      NatBitsNat(IdValue(h), m);
      SameParts(g, h);
    }
  }

  lemma SameParts(g: Gnb, h: Gnb)
    requires ValidId(g) && ValidId(h) && g.idPresent && h.idPresent && |g.octets| == |h.octets| && IdValue(g) == IdValue(h)
    ensures Prefix(g) == Prefix(h) && PlmnText(g.plmn) == PlmnText(h.plmn) && Suffix(g) == Suffix(h) ==> Name(g) == Name(h)
  {
  }

  /** What the number behind the id is: the CU-UP or DU id that alone is there and not negative. */
  predicate IsTail(tail: string, cu: int, du: int)
  {
    if (cu >= 0) == (du >= 0) then tail == ""
    else tail != "" && tail[0] == '_' && IsNumeral(tail[1..], if cu >= 0 then cu else du)
  }

  function Joined(front: string, id: string, tail: string): string { front + "_" + id + tail }

  /** The whole name: gnbc_ for a present id with a CU-UP id alone, gnbd_ with a DU id alone, gnb_ otherwise; the PLMN;
      and for a present id two digits an octet of its number, then the CU-UP or DU id. */
  lemma NameExactly(g: Gnb)
    requires ValidId(g)
    ensures var prefix := if g.idPresent && g.cuUp.Some? && g.du.None? then "gnbc_"
                          else if g.idPresent && g.du.Some? && g.cuUp.None? then "gnbd_" else "gnb_";
            var cu, du := if g.cuUp.Some? then g.cuUp.value else -1, if g.du.Some? then g.du.value else -1;
            if !g.idPresent then Name(g) == prefix + PlmnText(g.plmn)
            else exists id, tail :: Name(g) == Joined(prefix + PlmnText(g.plmn), id, tail)
                   && |id| == 2 * |g.octets| && AllHex(id) && Hexadecimal(id) == IdValue(g) && IsTail(tail, cu, du)
    ensures "gnbc_" <= Name(g) <==> g.idPresent && g.cuUp.Some? && g.du.None?
    ensures "gnbd_" <= Name(g) <==> g.idPresent && g.du.Some? && g.cuUp.None?
  {
    hide HexDigits, HexNumber, P2, Hexadecimal, IsNumeral, PlmnText;
    var id, tail := HexDigits(IdValue(g), 2 * |g.octets|), SuffixText(Suffix(g));
    IdFits(g);
    HexDigitsDenote(IdValue(g), 2 * |g.octets|);
    TailIs(g, tail);
    assert Name(g)[3] == Prefix(g)[3];
    if g.idPresent {
      assert Name(g) == Joined(Prefix(g) + PlmnText(g.plmn), id, tail);
      assert Prefix(g) == (if g.idPresent && g.cuUp.Some? && g.du.None? then "gnbc_"
                          else if g.idPresent && g.du.Some? && g.cuUp.None? then "gnbd_" else "gnb_");
      assert IsTail(tail, if g.cuUp.Some? then g.cuUp.value else -1, if g.du.Some? then g.du.value else -1);
    } else {
      assert Prefix(g) + PlmnText(g.plmn) + "" == Prefix(g) + PlmnText(g.plmn);
    }
  }

  lemma TailIs(g: Gnb, tail: string)
    requires tail == SuffixText(Suffix(g))
    ensures IsTail(tail, if g.cuUp.Some? then g.cuUp.value else -1, if g.du.Some? then g.du.value else -1)
  {
    hide HexNumber, IsNumeral;
    if Suffix(g).Some? {
      HexNumberIsNumeral(Suffix(g).value);
      assert tail[1..] == HexNumber(Suffix(g).value);
    }
  }

  lemma IdFits(g: Gnb)
    requires ValidId(g)
    ensures IdValue(g) < P2(4 * (2 * |g.octets|))
  {
    hide P2, NatToBits, BytesToBits, IdValue;
    IdBits(g);
    P2Grows(8 * |g.octets| - g.unused, 8 * |g.octets|);
  }

  /** A gNB's name is not empty and never looks like the other keys of the connection registry. */
  lemma NameIsNodeKey(g: Gnb)
    requires ValidId(g)
    ensures Name(g) != "" && !E2Protocol.ReservedKey(Name(g))
  {
    assert Name(g)[0] == 'g';
  }
}
