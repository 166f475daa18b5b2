/** base64::encode and base64::decode: section 4 of RFC 4648, with a decoder that, as section 3.3 allows, skips
    characters outside the alphabet. */
module Base64 {
  import opened Text
  import opened Bytes
  import opened Seqs

  type sextet = v: int | 0 <= v < 64

  /** base64_table */
  function Symbol(v: sextet): (c: char)
    ensures IsSymbol(c) && Inverse(c) == v
  {
    if v < 26 then (('A' as int) + v) as char
    else if v < 52 then (('a' as int) + v - 26) as char
    else if v < 62 then (('0' as int) + v - 52) as char
    else if v == 62 then '+'
    else '/'
  }

  predicate IsSymbol(c: char)
  {
    'A' <= c <= 'Z' || 'a' <= c <= 'z' || '0' <= c <= '9' || c == '+' || c == '/'
  }

  /** inv_table, for the characters it does not mark as 0x80. */
  function Inverse(c: char): sextet
    requires IsSymbol(c) || c == '='
  {
    if 'A' <= c <= 'Z' then (c as int) - ('A' as int)
    else if 'a' <= c <= 'z' then (c as int) - ('a' as int) + 26
    else if '0' <= c <= '9' then (c as int) - ('0' as int) + 52
    else if c == '+' then 62
    else if c == '/' then 63
    else 0
  }

  predicate Counts(c: char) { IsSymbol(c) || c == '=' }

  // ----- encoding -----

  /** Three octets as four symbols. */
  function Group(x: byte, y: byte, z: byte): (r: string)
    ensures |r| == 4
  {
    [Symbol(x / 4), Symbol(x % 4 * 16 + y / 16), Symbol(y % 16 * 4 + z / 64), Symbol(z % 64)]
  }

  function LastGroup(rest: seq<byte>): (r: string)
    requires 1 <= |rest| <= 2
    ensures |r| == 4
  {
    if |rest| == 1 then [Symbol(rest[0] / 4), Symbol(rest[0] % 4 * 16), '=', '=']
    else [Symbol(rest[0] / 4), Symbol(rest[0] % 4 * 16 + rest[1] / 16), Symbol(rest[1] % 16 * 4), '=']
  }

  function Encoded(xs: seq<byte>): (r: string)
    ensures |r| == 4 * ((|xs| + 2) / 3)
  {
    if xs == [] then ""
    else if |xs| < 3 then LastGroup(xs)
    else Group(xs[0], xs[1], xs[2]) + Encoded(xs[3..])
  }

  // ----- what encoding is: section 4 of RFC 4648 -----

  /** The symbols are those of the base64 alphabet, in order; here sixteen at a time. */
  lemma AlphabetExactly(v: nat)
    requires v < 16
    ensures Symbol(v) == "ABCDEFGHIJKLMNOP"[v]
    ensures Symbol(16 + v) == "QRSTUVWXYZabcdef"[v]
    ensures Symbol(32 + v) == "ghijklmnopqrstuv"[v]
    ensures Symbol(48 + v) == "wxyz0123456789+/"[v]
  {
  }

  /** Three octets and their four symbols are one number; so are the octets of a decoded block. */
  lemma GroupIsNumber(x: byte, y: byte, z: byte)
    ensures var g := Group(x, y, z);
            && (forall i :: 0 <= i < 4 ==> IsSymbol(g[i]))
            && Inverse(g[0]) * 262144 + Inverse(g[1]) * 4096 + Inverse(g[2]) * 64 + Inverse(g[3]) == x * 65536 + y * 256 + z
  {
    hide Symbol, Inverse;
    GroupSum(x, y, z);
  }

  lemma GroupSum(x: byte, y: byte, z: byte)
    ensures (x as int) / 4 * 262144 + ((x as int) % 4 * 16 + y / 16) * 4096 + ((y as int) % 16 * 4 + z / 64) * 64 + z % 64
         == (x as int) * 65536 + (y as int) * 256 + z
  {
  }

  /** One or two last octets are encoded like three with zeros behind, the symbols of zeros alone being pads. */
  lemma LastGroupExactly(rest: seq<byte>)
    requires 1 <= |rest| <= 2
    ensures |rest| == 1 ==> LastGroup(rest) == Group(rest[0], 0, 0)[..2] + "=="
    ensures |rest| == 2 ==> LastGroup(rest) == Group(rest[0], rest[1], 0)[..3] + "="
  {
    hide Symbol;
  }

  // ----- decoding -----

  /** The characters that are not skipped. */
  function Symbols(s: string): (r: string)
    ensures |r| <= |s| && forall i :: 0 <= i < |r| ==> Counts(r[i])
  {
    if s == "" then ""
    else if Counts(s[|s| - 1]) then Symbols(s[..|s| - 1]) + [s[|s| - 1]]
    else Symbols(s[..|s| - 1])
  }

  function Pads(block: string): nat
  {
    if block == "" then 0 else Pads(block[..|block| - 1]) + if block[|block| - 1] == '=' then 1 else 0
  }

  /** The three octets of a block; the store to an unsigned char drops the bits shifted out above, and the two parts
      of each do not overlap. */
  function Octets(a: sextet, b: sextet, c: sextet, d: sextet): (r: seq<byte>)
    ensures |r| == 3
  {
    [(a as int) * 4 + b / 16, (b as int) % 16 * 16 + c / 4, (c as int) % 4 * 64 + d]
  }

  /** The three octets are the number of the four sextets. */
  lemma OctetsAreNumber(a: sextet, b: sextet, c: sextet, d: sextet)
    ensures var o := Octets(a, b, c, d);
            (o[0] as int) * 65536 + (o[1] as int) * 256 + o[2] == (a as int) * 262144 + (b as int) * 4096 + (c as int) * 64 + d
  {
  }

  predicate AllCount(cs: string) { forall i :: 0 <= i < |cs| ==> Counts(cs[i]) }

  function BlockOctets(block: string): (r: seq<byte>)
    requires |block| == 4 && AllCount(block)
    ensures |r| == 3
  {
    Octets(Inverse(block[0]), Inverse(block[1]), Inverse(block[2]), Inverse(block[3]))
  }

  /** Blocks of four up to and with the first padded one, which gives two octets or one; with three pads it is an error. */
  function Blocks(cs: string): Option<seq<byte>>
    requires AllCount(cs)
  {
    if |cs| < 4 then Some([])
    else
      var pad, octets := Pads(cs[..4]), BlockOctets(cs[..4]);
      if pad == 0 then
        (match Blocks(cs[4..])
         case None => None
         case Some(rest) => Some(octets + rest))
      else if pad <= 2 then Some(octets[..3 - pad])
      else None
  }

  function Decoded(s: string): Option<seq<byte>>
  {
    var cs := Symbols(s);
    if cs == "" || |cs| % 4 != 0 then None else Blocks(cs)
  }

  // ----- what is proved of them -----

  lemma {:induction false} SymbolsAppend(a: string, b: string)
    ensures Symbols(a + b) == Symbols(a) + Symbols(b)
    decreases |b|
  {
    hide Counts, Symbols;
    if b == "" {
      assert a + b == a;
      NoSymbols(b);
      Associate(Symbols(a), [], []);
    } else {
      var front, ab, c := b[..|b| - 1], a + b, b[|b| - 1];
      SymbolsAppend(a, front);
      assert ab[..|ab| - 1] == a + front && ab[|ab| - 1] == c;
      SymbolsSnoc(ab);
      SymbolsSnoc(b);
      Associate(Symbols(a), Symbols(front), if Counts(c) then [c] else []);
    }
  }

  lemma SymbolsSnoc(s: string)
    requires s != ""
    ensures Symbols(s) == Symbols(s[..|s| - 1]) + if Counts(s[|s| - 1]) then [s[|s| - 1]] else []
  {
    hide Counts;
    Associate(Symbols(s[..|s| - 1]), [], []);
  }

  /** Inserting characters outside the alphabet anywhere changes nothing. */
  lemma InsertionInvariance(a: string, junk: string, b: string)
    requires forall i :: 0 <= i < |junk| ==> !Counts(junk[i])
    ensures Decoded(a + junk + b) == Decoded(a + b)
  {
    hide Counts, Symbols, Blocks;
    NoSymbols(junk);
    SymbolsAppend(a, junk);
    SymbolsAppend(a + junk, b);
    SymbolsAppend(a, b);
    assert Symbols(a) + "" == Symbols(a);
  }

  lemma {:induction false} NoSymbols(s: string)
    requires forall i :: 0 <= i < |s| ==> !Counts(s[i])
    ensures Symbols(s) == ""
  {
    if s != "" { NoSymbols(s[..|s| - 1]); }
  }

  lemma {:induction false} AllSymbols(s: string)
    requires AllCount(s)
    ensures Symbols(s) == s
  {
    if s != "" {
      AllSymbols(s[..|s| - 1]);
      assert s == s[..|s| - 1] + [s[|s| - 1]];
    }
  }

  lemma GroupBack(x: byte, y: byte, z: byte)
    ensures AllCount(Group(x, y, z)) && BlockOctets(Group(x, y, z)) == [x, y, z]
  {
    hide Symbol, Inverse;
    SextetsBack(x, y, z, x / 4, x % 4 * 16 + y / 16, y % 16 * 4 + z / 64, z % 64);
  }

  lemma SextetsBack(x: byte, y: byte, z: byte, a: sextet, b: sextet, c: sextet, d: sextet)
    requires a == x / 4 && b == (x as int) % 4 * 16 + y / 16 && c == (y as int) % 16 * 4 + z / 64 && d == z % 64
    ensures Octets(a, b, c, d) == [x, y, z]
  {
    assert b / 16 == x % 4 && b % 16 == y / 16;
    assert c / 4 == y % 16 && c % 4 == z / 64;
  }

  lemma PadsOf(block: string)
    requires |block| == 4
    ensures Pads(block) == (if block[0] == '=' then 1 else 0) + (if block[1] == '=' then 1 else 0)
                         + (if block[2] == '=' then 1 else 0) + (if block[3] == '=' then 1 else 0)
  {
    var b3, b2, b1 := block[..3], block[..2], block[..1];
    assert b3[..2] == b2 && b2[..1] == b1 && b1[..0] == "";
    assert Pads(b1) == if block[0] == '=' then 1 else 0;
    assert Pads(b2) == Pads(b1) + if block[1] == '=' then 1 else 0;
    assert Pads(b3) == Pads(b2) + if block[2] == '=' then 1 else 0;
  }

  lemma LastGroupBack(rest: seq<byte>)
    requires 1 <= |rest| <= 2
    ensures var g := LastGroup(rest);
            AllCount(g) && Pads(g) == 3 - |rest| && BlockOctets(g)[..|rest|] == rest
  {
    PadsOf(LastGroup(rest));
    hide Symbol, Inverse;
    var x, y := rest[0], if |rest| == 2 then rest[1] else 0;
    assert Inverse('=') == 0 by { PadIsZero(); }
    SextetsBack(x, y, 0, x / 4, x % 4 * 16 + y / 16, y % 16 * 4, 0);
  }

  lemma PadIsZero()
    ensures Inverse('=') == 0
  {
  }

  lemma {:induction false} BlocksOfEncoded(xs: seq<byte>)
    ensures AllCount(Encoded(xs)) && Blocks(Encoded(xs)) == Some(xs)
  {
    hide Counts, Pads, BlockOctets, Group, LastGroup;
    var s := Encoded(xs);
    if xs == [] {
    } else if |xs| < 3 {
      LastGroupBack(xs);
      assert s[..4] == s;
    } else {
      var group := Group(xs[0], xs[1], xs[2]);
      BlocksOfEncoded(xs[3..]);
      GroupBack(xs[0], xs[1], xs[2]);
      GroupPads(xs[0], xs[1], xs[2]);
      assert s[..4] == group && s[4..] == Encoded(xs[3..]);
      assert xs == [xs[0], xs[1], xs[2]] + xs[3..];
    }
  }

  lemma GroupPads(x: byte, y: byte, z: byte)
    ensures Pads(Group(x, y, z)) == 0
  {
    PadsOf(Group(x, y, z));
  }

  /** Decoding an encoding gives the octets back. */
  lemma RoundTrip(xs: seq<byte>)
    requires xs != []
    ensures Decoded(Encoded(xs)) == Some(xs)
  {
    WholeGroups(xs);
    hide Blocks, Symbols, Encoded, AllCount;
    BlocksOfEncoded(xs);
    AllSymbols(Encoded(xs));
  }

  lemma WholeGroups(xs: seq<byte>)
    requires xs != []
    ensures |Encoded(xs)| > 0 && |Encoded(xs)| % 4 == 0
  {
    hide Encoded;
    var n := (|xs| + 2) / 3;
    assert (4 * n) % 4 == 0;
  }

  // ----- which texts are encodings -----

  /** Pads stand at the very end only, at most two, and the bits they leave over are zero. */
  predicate Canonical(cs: string)
    requires |cs| >= 4 && AllCount(cs)
  {
    var n := |cs|;
    && (forall i :: 0 <= i < n - 2 ==> cs[i] != '=')
    && (cs[n - 2] == '=' ==> cs[n - 1] == '=' && Inverse(cs[n - 3]) % 16 == 0)
    && (cs[n - 2] != '=' && cs[n - 1] == '=' ==> Inverse(cs[n - 2]) % 4 == 0)
  }

  lemma SymbolOfInverse(c: char)
    requires IsSymbol(c)
    ensures Symbol(Inverse(c)) == c
  {
  }

  /** The encoding of octets cut from a block, and the block. */
  lemma SextetsAgain(a: sextet, b: sextet, c: sextet, d: sextet)
    ensures var o := Octets(a, b, c, d);
            && o[0] / 4 == a && (o[0] as int) % 4 * 16 + o[1] / 16 == b && (o[1] as int) % 16 * 4 + o[2] / 64 == c && o[2] % 64 == d
            && ((o[0] as int) % 4 * 16 == b <==> b % 16 == 0) && ((o[1] as int) % 16 * 4 == c <==> c % 4 == 0)
  {
  }

  lemma UnpaddedBlockAgain(block: string)
    requires |block| == 4 && AllCount(block) && forall i :: 0 <= i < 4 ==> block[i] != '='
    ensures var o := BlockOctets(block); Group(o[0], o[1], o[2]) == block
  {
    hide Symbol, Inverse, IsSymbol;
    SextetsAgain(Inverse(block[0]), Inverse(block[1]), Inverse(block[2]), Inverse(block[3]));
    SymbolOfInverse(block[0]);
    SymbolOfInverse(block[1]);
    SymbolOfInverse(block[2]);
    SymbolOfInverse(block[3]);
  }

  /** One pad: the encoding of the two octets is the block exactly when the pad is last and leaves zero bits over. */
  lemma OnePadAgain(block: string)
    requires |block| == 4 && AllCount(block) && Pads(block) == 1
    ensures LastGroup(BlockOctets(block)[..2]) == block <==> Canonical(block)
  {
    PadsOf(block);
    hide Symbol, Inverse, IsSymbol, Pads, Octets;
    var a, b, c, d := Inverse(block[0]), Inverse(block[1]), Inverse(block[2]), Inverse(block[3]);
    var o := Octets(a, b, c, d);
    if block[3] == '=' {
      SextetsAgain(a, b, c, d);
      SymbolOfInverse(block[0]);
      SymbolOfInverse(block[1]);
      SymbolOfInverse(block[2]);
      SymbolsDiffer(o[1] % 16 * 4, c);
      assert LastGroup(o[..2]) == [block[0], block[1], Symbol(o[1] % 16 * 4), '='];
    }
  }

  lemma TwoPadsAgain(block: string)
    requires |block| == 4 && AllCount(block) && Pads(block) == 2
    ensures LastGroup(BlockOctets(block)[..1]) == block <==> Canonical(block)
  {
    PadsOf(block);
    hide Symbol, Inverse, IsSymbol, Pads, Octets;
    var a, b, c, d := Inverse(block[0]), Inverse(block[1]), Inverse(block[2]), Inverse(block[3]);
    var o := Octets(a, b, c, d);
    if block[2] == '=' && block[3] == '=' {
      SextetsAgain(a, b, c, d);
      SymbolOfInverse(block[0]);
      SymbolOfInverse(block[1]);
      SymbolsDiffer(o[0] % 4 * 16, b);
      assert LastGroup(o[..1]) == [block[0], Symbol(o[0] % 4 * 16), '=', '='];
    }
  }

  lemma SymbolsDiffer(v: sextet, w: sextet)
    ensures Symbol(v) == Symbol(w) <==> v == w
  {
    assert Inverse(Symbol(v)) == v && Inverse(Symbol(w)) == w;
  }

  lemma NoPads(block: string)
    requires |block| == 4
    ensures Pads(block) == 0 <==> forall i :: 0 <= i < 4 ==> block[i] != '='
  {
    PadsOf(block);
  }

  lemma CanonicalTail(block: string, rest: string)
    requires |block| == 4 && |rest| >= 4 && AllCount(block) && AllCount(rest)
    ensures AllCount(block + rest)
    ensures Canonical(block + rest) <==> Pads(block) == 0 && Canonical(rest)
  {
    hide Inverse, Pads, IsSymbol;
    NoPads(block);
    var cs := block + rest;
    assert forall i :: 0 <= i < 4 ==> cs[i] == block[i];
    assert forall i :: 0 <= i < |rest| ==> cs[4 + i] == rest[i];
    assert forall i :: 4 <= i < |cs| ==> cs[i] == rest[i - 4];
  }

  lemma {:induction false} BlocksAgain(cs: string)
    requires AllCount(cs) && |cs| >= 4 && |cs| % 4 == 0 && Blocks(cs).Some?
    ensures Encoded(Blocks(cs).value) == cs <==> Canonical(cs)
    decreases |cs|
  {
    hide Pads, BlockOctets, Group, LastGroup, Canonical, Counts;
    var block, rest := cs[..4], cs[4..];
    assert cs == block + rest;
    NoPads(block);
    if rest == "" {
      LastBlockAgain(cs);
    } else {
      CanonicalTail(block, rest);
      if Pads(block) == 0 {
        BlocksAgain(rest);
        UnpaddedBlockAgain(block);
        EncodedMore(BlockOctets(block), Blocks(rest).value);
        assert block + Encoded(Blocks(rest).value) == block + rest <==> Encoded(Blocks(rest).value) == rest by {
          assert (block + rest)[4..] == rest && (block + Encoded(Blocks(rest).value))[4..] == Encoded(Blocks(rest).value);
        }
      } else {
        assert |Encoded(Blocks(cs).value)| == 4;
      }
    }
  }

  lemma LastBlockAgain(block: string)
    requires AllCount(block) && |block| == 4 && Blocks(block).Some?
    ensures Encoded(Blocks(block).value) == block <==> Canonical(block)
  {
    hide Pads, BlockOctets, Group, LastGroup, Counts;
    assert block[..4] == block && block[4..] == "";
    var octets := BlockOctets(block);
    NoPads(block);
    if Pads(block) == 0 {
      UnpaddedBlockAgain(block);
      assert octets + [] == octets;
      EncodedMore(octets, []);
      assert block + "" == block;
    } else if Pads(block) == 1 {
      OnePadAgain(block);
    } else {
      TwoPadsAgain(block);
    }
  }

  lemma EncodedMore(octets: seq<byte>, rest: seq<byte>)
    requires |octets| == 3
    ensures Encoded(octets + rest) == Group(octets[0], octets[1], octets[2]) + Encoded(rest)
  {
    assert (octets + rest)[3..] == rest;
  }

  /** Of the texts that decode, exactly those are encodings, up to skipped characters, whose pads stand at the very end
      and leave zero bits over. */
  lemma CanonicalExactly(s: string)
    requires Decoded(s).Some?
    ensures AllCount(Symbols(s)) && |Symbols(s)| >= 4
    ensures Encoded(Decoded(s).value) == Symbols(s) <==> Canonical(Symbols(s))
  {
    hide Symbols, Blocks, Canonical;
    BlocksAgain(Symbols(s));
  }

  /** The pads of a block may stand anywhere in it, and whatever follows the block is not looked at. */
  lemma PaddedBlockEnds(block: string, rest: string)
    requires |block| == 4 && AllCount(block) && AllCount(rest) && |rest| % 4 == 0 && 1 <= Pads(block) <= 2
    ensures Decoded(block + rest) == Some(BlockOctets(block)[..3 - Pads(block)])
  {
    hide Symbols, Pads, BlockOctets, Counts;
    var cs := block + rest;
    AllSymbols(cs);
    FourMore(|rest|);
    assert cs[..4] == block;
  }

  lemma FourMore(n: nat)
    requires n % 4 == 0
    ensures (4 + n) % 4 == 0
  {
  }

  // ----- the two functions over their buffers -----

  /** base64::encode. length is dstLen on return; the size test alone does not make room for what is written, so the
      caller has to. */
  method Encode(src: seq<byte>, dst: array<char>, dstLen: int) returns (rc: int, length: int)
    requires dstLen > 0 && |src| > 0 && dstLen >= |src| * 4 / 3 ==> dst.Length >= 4 * ((|src| + 2) / 3) + 1
    modifies dst
    ensures rc == if dstLen <= 0 || |src| == 0 || dstLen < |src| * 4 / 3 then -1 else 0
    ensures rc != 0 ==> length == dstLen && dst[..] == old(dst[..])
    ensures rc == 0 ==> length == 4 * ((|src| + 2) / 3) && dst[..length] == Encoded(src) && dst[length] == 0 as char
    ensures rc == 0 ==> forall k :: length < k < dst.Length ==> dst[k] == old(dst[k])
  {
    hide Group, LastGroup;
    if dstLen <= 0 || |src| == 0 || dstLen < |src| * 4 / 3 { return -1, dstLen; }
    var pos, i := 0, 0;
    assert src[0..] == src;
    while |src| - i >= 3
      invariant 0 <= i <= |src| && 3 * pos == 4 * i
      invariant dst[..pos] + Encoded(src[i..]) == Encoded(src)
      invariant forall k :: pos <= k < dst.Length ==> dst[k] == old(dst[k])
    {
      ghost var written, rest := dst[..pos], src[i..];
      assert rest[3..] == src[i + 3..] && rest[0] == src[i] && rest[1] == src[i + 1] && rest[2] == src[i + 2];
      PutGroup(dst, pos, src[i], src[i + 1], src[i + 2]);
      Associate(written, Group(src[i], src[i + 1], src[i + 2]), Encoded(rest[3..]));
      pos, i := pos + 4, i + 3;
    }
    ghost var written, rest := dst[..pos], src[i..];
    if |src| - i > 0 {
      PutLastGroup(dst, pos, src[i..]);
      pos := pos + 4;
    } else {
      assert written + "" == written;
    }
    dst[pos] := 0 as char;
    rc, length := 0, pos;
  }

  method PutGroup(dst: array<char>, pos: nat, x: byte, y: byte, z: byte)
    requires pos + 4 <= dst.Length
    modifies dst
    ensures dst[..pos + 4] == old(dst[..pos]) + Group(x, y, z)
    ensures forall k :: pos + 4 <= k < dst.Length ==> dst[k] == old(dst[k])
  {
    hide Symbol;
    dst[pos] := Symbol(x / 4);
    dst[pos + 1] := Symbol(x % 4 * 16 + y / 16);
    dst[pos + 2] := Symbol(y % 16 * 4 + z / 64);
    dst[pos + 3] := Symbol(z % 64);
  }

  method PutLastGroup(dst: array<char>, pos: nat, rest: seq<byte>)
    requires 1 <= |rest| <= 2 && pos + 4 <= dst.Length
    modifies dst
    ensures dst[..pos + 4] == old(dst[..pos]) + LastGroup(rest)
    ensures forall k :: pos + 4 <= k < dst.Length ==> dst[k] == old(dst[k])
  {
    hide Symbol;
    dst[pos] := Symbol(rest[0] / 4);
    if |rest| == 1 {
      dst[pos + 1] := Symbol(rest[0] % 4 * 16);
      dst[pos + 2] := '=';
    } else {
      dst[pos + 1] := Symbol(rest[0] % 4 * 16 + rest[1] / 16);
      dst[pos + 2] := Symbol(rest[1] % 16 * 4);
    }
    dst[pos + 3] := '=';
  }

  /** The first loop of base64::decode. */
  method CountSymbols(src: string) returns (count: nat)
    ensures count == |Symbols(src)|
  {
    hide Counts;
    count := 0;
    var i := 0;
    assert src[..0] == "";
    while i < |src|
      invariant 0 <= i <= |src| && count == |Symbols(src[..i])|
    {
      assert src[..i + 1][..i] == src[..i];
      if Counts(src[i]) { count := count + 1; }
      i := i + 1;
    }
    assert src[..i] == src;
  }

  /** base64::decode; length is the number of octets decoded, which the original leaves in a parameter passed by value.
      Every octet written lies in the first 3 * (srcLen / 4). */
  method Decode(src: string, dst: array<byte>, dstLen: int) returns (rc: int, length: nat)
    requires dst.Length >= dstLen
    modifies dst
    ensures rc == 0 <==> dstLen != 0 && dstLen >= |src| / 4 * 3 && Decoded(src).Some?
    ensures rc != 0 ==> rc == -1
    ensures rc == 0 ==> length <= dst.Length && dst[..length] == Decoded(src).value
    ensures forall k :: 3 * (|src| / 4) <= k < dst.Length ==> dst[k] == old(dst[k])
  {
    hide Counts, Symbols, Blocks, Pads, BlockOctets;
    length := 0;
    if dstLen == 0 || dstLen < |src| / 4 * 3 { return -1, 0; }
    var count := CountSymbols(src);
    if count == 0 || count % 4 != 0 { return -1, 0; }
    rc, length := DecodeBlocks(src, dst);
  }

  method DecodeBlocks(src: string, dst: array<byte>) returns (rc: int, length: nat)
    requires |Symbols(src)| > 0 && |Symbols(src)| % 4 == 0 && dst.Length >= 3 * (|src| / 4)
    modifies dst
    ensures rc == 0 <==> Decoded(src).Some?
    ensures rc != 0 ==> rc == -1
    ensures rc == 0 ==> length <= dst.Length && dst[..length] == Decoded(src).value
    ensures forall k :: 3 * (|src| / 4) <= k < dst.Length ==> dst[k] == old(dst[k])
  {
    hide Counts, Symbols, Blocks, Pads, BlockOctets, Midway, Joined;
    ghost var cs, limit := Symbols(src), 3 * (|src| / 4);
    var block, pad, i := "", 0, 0;
    ghost var done := 0;
    length := 0;
    DecodeStart(src);
    while i < |src|
      invariant 0 <= i <= |src| && 4 * length == 3 * done
      invariant |block| < 4 && done + |block| <= i && AllCount(block) && pad == Pads(block)
      invariant length <= dst.Length && Midway(cs, done, block, Symbols(src[i..]), dst[..length])
      invariant forall k :: limit <= k < dst.Length ==> dst[k] == old(dst[k])
    {
      FirstCharacter(src[i..]);
      assert src[i..][1..] == src[i + 1..];
      var ch := src[i];
      i := i + 1;
      if !Counts(ch) { continue; }
      PadsStep(block, ch);
      if ch == '=' { pad := pad + 1; }
      MidwayCharacter(cs, done, block, ch, Symbols(src[i..]), dst[..length]);
      block := block + [ch];
      if |block| == 4 {
        RoomForBlock(done, length, |src|);
        rc, length := TakeBlockMidway(dst, length, block, pad, cs, done, Symbols(src[i..]));
        if rc <= 0 { return rc, length; }
        done, block := done + 4, "";
      }
    }
    MidwayEnd(src, cs, done, length, block, dst[..length]);
    rc := 0;
  }

  lemma RoomForBlock(done: nat, length: nat, n: nat)
    requires 4 * length == 3 * done && done + 4 <= n
    ensures length + 3 <= 3 * (n / 4)
  {
  }

  /** TakeBlock where the blocks before are decoded into dst[..pos]. */
  method TakeBlockMidway(dst: array<byte>, pos: nat, block: string, pad: nat, ghost cs: string, ghost done: nat, ghost rest: string)
    returns (rc: int, length: nat)
    requires |block| == 4 && AllCount(block) && pad == Pads(block) && pos + 3 <= dst.Length
    requires Midway(cs, done, block, rest, dst[..pos])
    modifies dst
    ensures AllCount("") && Pads("") == 0 && (rc >= 0 ==> length <= pos + 3)
    ensures rc > 0 ==> length == pos + 3 && pad == 0 && Midway(cs, done + 4, "", rest, dst[..length])
    ensures rc == 0 ==> Blocks(cs) == Some(dst[..length])
    ensures rc < 0 ==> rc == -1 && Blocks(cs) == None
    ensures forall k :: pos + 3 <= k < dst.Length ==> dst[k] == old(dst[k])
  {
    hide Blocks, Pads, BlockOctets, Midway;
    MidwayBlock(cs, done, block, rest, dst[..pos]);
    rc, length := TakeBlock(dst, pos, block, pad);
  }

  /** The first done characters of cs are decoded, block is being filled, rest is to come. */
  ghost predicate Midway(cs: string, done: nat, block: string, rest: string, written: seq<byte>)
  {
    && AllCount(cs) && done <= |cs| && cs == (cs[..done] + block) + rest
    && Blocks(cs) == Joined(written, Blocks(cs[done..]))
  }

  /** Octets before what the rest of the blocks gives. */
  function Joined(written: seq<byte>, rest: Option<seq<byte>>): Option<seq<byte>>
  {
    match rest
    case None => None
    case Some(octets) => Some(written + octets)
  }

  /** A complete block: 1 to go on, 0 after a padded block, -1 after one with three pads or more. */
  method TakeBlock(dst: array<byte>, pos: nat, block: string, pad: nat) returns (rc: int, length: nat)
    requires |block| == 4 && AllCount(block) && pad == Pads(block) && pos + 3 <= dst.Length
    modifies dst
    ensures rc == if pad == 0 then 1 else if pad <= 2 then 0 else -1
    ensures pad == 0 ==> length == pos + 3 && dst[..length] == old(dst[..pos]) + BlockOctets(block)
    ensures 1 <= pad <= 2 ==> length == pos + 3 - pad && dst[..length] == old(dst[..pos]) + BlockOctets(block)[..3 - pad]
    ensures forall k :: pos + 3 <= k < dst.Length ==> dst[k] == old(dst[k])
  {
    hide BlockOctets, Pads, Counts;
    ghost var written := dst[..pos];
    PutBlock(dst, pos, block);
    length := pos + 3;
    if pad == 0 { return 1, length; }
    if pad == 1 {
      length := length - 1;
    } else if pad == 2 {
      length := length - 2;
    } else {
      return -1, length;
    }
    Shortened(dst[..pos + 3], written, BlockOctets(block), pad);
    assert dst[..length] == dst[..pos + 3][..length];
    rc := 0;
  }

  lemma Shortened(all: seq<byte>, written: seq<byte>, octets: seq<byte>, pad: nat)
    requires all == written + octets && |octets| == 3 && pad <= 2
    ensures all[..|all| - pad] == written + octets[..3 - pad]
  {
  }

  method PutBlock(dst: array<byte>, pos: nat, block: string)
    requires |block| == 4 && AllCount(block) && pos + 3 <= dst.Length
    modifies dst
    ensures dst[..pos + 3] == old(dst[..pos]) + BlockOctets(block)
    ensures forall k :: pos + 3 <= k < dst.Length ==> dst[k] == old(dst[k])
  {
    var octets := BlockOctets(block);
    hide BlockOctets;
    dst[pos] := octets[0];
    dst[pos + 1] := octets[1];
    dst[pos + 2] := octets[2];
  }

  lemma DecodeStart(src: string)
    ensures AllCount("") && Pads("") == 0 && Midway(Symbols(src), 0, "", Symbols(src[0..]), [])
  {
    hide Blocks, Symbols;
    assert src[0..] == src && Symbols(src)[0..] == Symbols(src);
    if Blocks(Symbols(src)).Some? {
      assert [] + Blocks(Symbols(src)).value == Blocks(Symbols(src)).value;
    }
  }

  lemma FirstCharacter(s: string)
    requires s != ""
    ensures Symbols(s) == if Counts(s[0]) then [s[0]] + Symbols(s[1..]) else Symbols(s[1..])
  {
    assert s == [s[0]] + s[1..];
    SymbolsAppend([s[0]], s[1..]);
    assert [s[0]][..0] == "";
    assert Symbols([s[0]]) == if Counts(s[0]) then [s[0]] else "";
    assert "" + Symbols(s[1..]) == Symbols(s[1..]);
  }

  lemma PadsStep(block: string, c: char)
    ensures Pads(block + [c]) == Pads(block) + if c == '=' then 1 else 0
  {
    assert (block + [c])[..|block|] == block;
  }

  lemma MidwayCharacter(cs: string, done: nat, block: string, c: char, rest: string, written: seq<byte>)
    requires Midway(cs, done, block, [c] + rest, written)
    ensures Midway(cs, done, block + [c], rest, written)
  {
    hide Blocks, Joined, AllCount;
    assert (cs[..done] + block) + ([c] + rest) == (cs[..done] + (block + [c])) + rest;
  }

  /** A complete block: what the octets are in the end, and where decoding stands after it. */
  lemma MidwayBlock(cs: string, done: nat, block: string, rest: string, written: seq<byte>)
    requires Midway(cs, done, block, rest, written) && |block| == 4 && AllCount(block)
    ensures AllCount("") && Pads("") == 0
    ensures Pads(block) == 0 ==> Midway(cs, done + 4, "", rest, written + BlockOctets(block))
    ensures 1 <= Pads(block) <= 2 ==> Blocks(cs) == Some(written + BlockOctets(block)[..3 - Pads(block)])
    ensures Pads(block) > 2 ==> Blocks(cs) == None
  {
    hide Blocks, BlockOctets;
    NextBlock(cs, done, block, rest);
    JoinedStep(written, BlockOctets(block), Blocks(cs[done + 4..]));
    assert (cs[..done] + block) + rest == (cs[..done + 4] + "") + rest;
  }

  /** What the blocks from done on give, by the block in hand. */
  lemma NextBlock(cs: string, done: nat, block: string, rest: string)
    requires AllCount(cs) && done <= |cs| && |block| == 4 && cs == (cs[..done] + block) + rest
    ensures done + 4 <= |cs| && cs[..done + 4] == cs[..done] + block && cs[done + 4..] == rest && AllCount(block)
    ensures Blocks(cs[done..])
         == if Pads(block) == 0 then Joined(BlockOctets(block), Blocks(cs[done + 4..]))
            else if Pads(block) <= 2 then Some(BlockOctets(block)[..3 - Pads(block)])
            else None
  {
    var tail := cs[done..];
    assert tail == block + rest;
    assert tail[..4] == block && tail[4..] == rest && cs[done + 4..] == rest;
  }

  lemma JoinedStep(written: seq<byte>, octets: seq<byte>, rest: Option<seq<byte>>)
    ensures Joined(written, Joined(octets, rest)) == Joined(written + octets, rest)
  {
    if rest.Some? {
      assert written + (octets + rest.value) == (written + octets) + rest.value;
    }
  }

  lemma MidwayEnd(src: string, cs: string, done: nat, length: nat, block: string, written: seq<byte>)
    requires Midway(cs, done, block, Symbols(src[|src|..]), written)
    requires |cs| % 4 == 0 && 4 * length == 3 * done && |block| < 4
    ensures Blocks(cs) == Some(written)
  {
    assert src[|src|..] == "";
    assert |cs| == done + |block|;
    assert written + [] == written;
  }
}
