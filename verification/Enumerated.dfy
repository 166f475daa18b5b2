/** ENUMERATED: look-ups in the two sorted tables, XER tags, and the unaligned PER index. */
module Enumerated {
  import opened Text
  import opened Bytes
  import opened BitSeqs
  import opened Seqs
  import opened BitData

  /** asn_INTEGER_enum_map_t */
  datatype Element = Element(value: int, name: string)

  /** asn_INTEGER_specifics_t: value2enum is sorted by value, enum2value lists its indices in the order of names. */
  datatype Specifics = Specifics(value2enum: seq<Element>, enum2value: seq<nat>, extension: nat)

  // ----- comparison of names -----

  /** INTEGER__compar_enum2value on a key between two pointers and a NUL-terminated name. */
  function CompareNames(key: string, name: string): int
  {
    if key == "" then (if name != "" then -1 else 0)
    else if name == "" || key[0] != name[0] then (key[0] as int) - (if name == "" then 0 else name[0] as int)
    else CompareNames(key[1..], name[1..])
  }

  predicate NoNul(s: string) { forall i :: 0 <= i < |s| ==> s[i] as int != 0 }

  /** The comparison finds them equal when they are, or when the key goes on with a NUL where the name ends. */
  lemma {:induction false} CompareNamesEqual(key: string, name: string)
    requires NoNul(name)
    ensures CompareNames(key, name) == 0 <==> key == name || (name < key && key[|name|] as int == 0)
  {
    if key != "" && name != "" && key[0] == name[0] {
      CompareNamesEqual(key[1..], name[1..]);
      assert key == [key[0]] + key[1..] && name == [name[0]] + name[1..];
      if name < key {
        assert name[1..] < key[1..];
      }
      if name[1..] < key[1..] {
        assert name < key && key[|name|] == key[1..][|name| - 1];
      }
    }
  }

  lemma {:induction false} CompareNamesTransitive(key: string, a: string, b: string)
    requires NoNul(a) && NoNul(b) && CompareNames(key, a) <= 0 && CompareNames(a, b) < 0
    ensures CompareNames(key, b) < 0
  {
    if key != "" && a != "" && b != "" && key[0] == a[0] == b[0] {
      CompareNamesTransitive(key[1..], a[1..], b[1..]);
    }
  }

  // ----- the two tables -----

  predicate SortedByValue(s: Specifics)
  {
    forall i, j :: 0 <= i < j < |s.value2enum| ==> s.value2enum[i].value < s.value2enum[j].value
  }

  predicate IsPermutation(p: seq<nat>, n: nat)
  {
    && |p| == n && (forall i :: 0 <= i < n ==> p[i] < n)
    && (forall k :: 0 <= k < n ==> k in p)
  }

  /** A character that ends a tag name: white space, a slash or a closing bracket. */
  predicate EndsTag(c: char) { 9 <= c as int <= 13 || c == ' ' || c == '/' || c == '>' }

  predicate IsTagName(name: string)
  {
    name != "" && NoNul(name) && forall i :: 0 <= i < |name| ==> !EndsTag(name[i])
  }

  predicate WellFormed(s: Specifics)
  {
    && SortedByValue(s) && IsPermutation(s.enum2value, |s.value2enum|)
    && (forall i :: 0 <= i < |s.value2enum| ==> IsTagName(s.value2enum[i].name))
    && (forall i, j :: 0 <= i < j < |s.value2enum| ==>
          CompareNames(s.value2enum[s.enum2value[i]].name, s.value2enum[s.enum2value[j]].name) < 0)
    && s.extension <= |s.value2enum| + 1
  }

  // ----- bsearch -----

  /** The key is compared with element i; elements ascend. */
  ghost predicate Ascending(count: nat, compare: nat -> int)
  {
    forall i: nat, j: nat :: i < j < count ==> (compare(i) <= 0 ==> compare(j) < 0)
  }

  /** bsearch of the C library: the index of a match, or -1. */
  method Bsearch(count: nat, compare: nat -> int) returns (index: int)
    requires Ascending(count, compare)
    ensures 0 <= index ==> index < count && compare(index) == 0
    ensures index < 0 ==> forall i: nat :: i < count ==> compare(i) != 0
  {
    var lo: nat, hi: nat := 0, count;
    while lo < hi
      invariant lo <= hi <= count
      invariant forall i: nat :: i < lo ==> compare(i) > 0
      invariant forall i: nat :: hi <= i < count ==> compare(i) < 0
    {
      var mid: nat := (lo + hi) / 2;
      var c := compare(mid);
      if c < 0 {
        hi := mid;
      } else if c > 0 {
        forall i: nat | i < mid ensures compare(i) > 0 {
        }
        lo := mid + 1;
      } else {
        return mid;
      }
    }
    index := -1;
  }

  function CompareValues(a: int, b: int): int { if a < b then -1 else if a == b then 0 else 1 }

  /** INTEGER_map_value2enum: found exactly when the value is in the table. */
  method ValueToEnum(s: Specifics, value: int) returns (index: int)
    requires WellFormed(s)
    ensures 0 <= index ==> index < |s.value2enum| && s.value2enum[index].value == value
    ensures index < 0 <==> forall i :: 0 <= i < |s.value2enum| ==> s.value2enum[i].value != value
  {
    var table := s.value2enum;
    if |table| == 0 { return -1; }
    var compare := (i: nat) => if i < |table| then CompareValues(value, table[i].value) else -1;
    index := Bsearch(|table|, compare);
    if index < 0 {
      forall i: nat | i < |table| ensures table[i].value != value {
        assert compare(i) != 0;
      }
    }
  }

  /** The name the look-up uses: whatever follows the first character, up to the first one that ends a tag. */
  function TagName(text: string): Option<string>
  {
    if text == "" then None else NameUpTo(text[1..])
  }

  function NameUpTo(s: string): Option<string>
  {
    if s == "" then None
    else if EndsTag(s[0]) then Some("")
    else
      match NameUpTo(s[1..])
      case None => None
      case Some(rest) => Some([s[0]] + rest)
  }

  /** The name is what stands between the first character and the first one after it that ends a tag. */
  lemma {:induction false} NameExactly(s: string, name: string)
    ensures NameUpTo(s) == Some(name) <==>
              |name| < |s| && s[..|name|] == name && EndsTag(s[|name|]) && forall i :: 0 <= i < |name| ==> !EndsTag(name[i])
    decreases |s|
  {
    if s != "" && !EndsTag(s[0]) && name != "" {
      NameExactly(s[1..], name[1..]);
      assert [name[0]] + name[1..] == name;
      assert |name| < |s| ==> s[1..][..|name| - 1] == s[..|name|][1..] && s[1..][|name| - 1] == s[|name|];
      assert s[0] == name[0] && |name| < |s| && s[..|name|][1..] == name[1..] ==> s[..|name|] == name;
      assert (forall i :: 0 <= i < |name| ==> !EndsTag(name[i]))
        <==> !EndsTag(name[0]) && forall i :: 0 <= i < |name| - 1 ==> !EndsTag(name[1..][i]);
    } else if s != "" && !EndsTag(s[0]) {
      assert NameUpTo(s) != Some("");
    } else if s != "" && name != "" && |name| < |s| && s[..|name|] == name {
      assert name[0] == s[0];
    }
  }

  /** The characters that end a name, by their codes. */
  lemma EndsTagCodes(c: char)
    ensures EndsTag(c) <==> c as int in {0x09, 0x0a, 0x0b, 0x0c, 0x0d, 0x20, 0x2f, 0x3e}
  {
  }

  predicate Matches(name: string, element: Element)
  {
    name == element.name || (element.name < name && name[|element.name|] as int == 0)
  }

  /** INTEGER_map_enum2value: the remapped search finds an element exactly when there is one of that name. */
  method EnumToValue(s: Specifics, text: string) returns (index: int)
    requires WellFormed(s) && text != ""
    ensures 0 <= index ==> index < |s.value2enum| && TagName(text).Some? && Matches(TagName(text).value, s.value2enum[index])
    ensures index < 0 ==> TagName(text).None?
                          || forall i :: 0 <= i < |s.value2enum| ==> !Matches(TagName(text).value, s.value2enum[i])
  {
    var table, remap := s.value2enum, s.enum2value;
    if |table| == 0 { return -1; }
    var lp := 1;
    PrependNothing(NameUpTo(text[1..]));
    assert text[1..1] == "";
    while lp < |text| && !EndsTag(text[lp])
      invariant 1 <= lp <= |text|
      invariant TagName(text) == Prepended(text[1..lp], NameUpTo(text[lp..]))
    {
      assert text[lp..][1..] == text[lp + 1..];
      PrependMore(text[1..lp], text[lp], NameUpTo(text[lp + 1..]));
      assert text[1..lp + 1] == text[1..lp] + [text[lp]];
      lp := lp + 1;
    }
    if lp == |text| { return -1; }
    var name := text[1..lp];
    assert name + "" == name;
    NamesAscend(s, name);
    var compare := (i: nat) => if i < |table| then CompareNames(name, table[remap[i]].name) else -1;
    var found := Bsearch(|table|, compare);
    if found < 0 {
      forall k | 0 <= k < |table| ensures !Matches(name, table[k]) {
        assert k in remap;
        var i :| 0 <= i < |remap| && remap[i] == k;
        CompareNamesEqual(name, table[k].name);
        assert compare(i) != 0;
      }
      return -1;
    }
    CompareNamesEqual(name, table[remap[found]].name);
    index := remap[found];
  }

  function Prepended(front: string, rest: Option<string>): Option<string>
  {
    match rest
    case None => None
    case Some(name) => Some(front + name)
  }

  lemma PrependMore(front: string, c: char, rest: Option<string>)
    ensures Prepended(front, Prepended([c], rest)) == Prepended(front + [c], rest)
  {
    if rest.Some? { assert front + ([c] + rest.value) == (front + [c]) + rest.value; }
  }

  lemma PrependNothing(rest: Option<string>)
    ensures Prepended("", rest) == rest
  {
    if rest.Some? { assert "" + rest.value == rest.value; }
  }

  lemma NamesAscend(s: Specifics, name: string)
    requires WellFormed(s)
    ensures forall i: nat, j: nat :: i < j < |s.value2enum| ==>
              (CompareNames(name, s.value2enum[s.enum2value[i]].name) <= 0 ==>
                 CompareNames(name, s.value2enum[s.enum2value[j]].name) < 0)
  {
    forall i: nat, j: nat | i < j < |s.value2enum| && CompareNames(name, s.value2enum[s.enum2value[i]].name) <= 0
      ensures CompareNames(name, s.value2enum[s.enum2value[j]].name) < 0
    {
      CompareNamesTransitive(name, s.value2enum[s.enum2value[i]].name, s.value2enum[s.enum2value[j]].name);
    }
  }

  // ----- XER -----

  /** NativeEnumerated_encode_xer: an unknown value is an error. */
  method EncodeXer(s: Specifics, value: int) returns (text: Option<string>)
    requires WellFormed(s)
    ensures text.Some? <==> exists i :: 0 <= i < |s.value2enum| && s.value2enum[i].value == value
    ensures text.Some? ==> exists i :: 0 <= i < |s.value2enum| && s.value2enum[i].value == value
                                     && text.value == "<" + s.value2enum[i].name + "/>"
  {
    var index := ValueToEnum(s, value);
    if index < 0 { return None; }
    text := Some("<" + s.value2enum[index].name + "/>");
  }

  lemma {:induction false} NameBeforeSlash(name: string, rest: string)
    requires forall i :: 0 <= i < |name| ==> !EndsTag(name[i])
    requires rest != "" && EndsTag(rest[0])
    ensures NameUpTo(name + rest) == Some(name)
  {
    if name == "" {
      assert name + rest == rest;
    } else {
      assert (name + rest)[1..] == name[1..] + rest;
      NameBeforeSlash(name[1..], rest);
      assert [name[0]] + name[1..] == name;
    }
  }

  /** The tag printed for an element is looked up as that element, and as no other. */
  lemma XerRoundTrip(s: Specifics, i: nat, k: nat)
    requires WellFormed(s) && i < |s.value2enum| && k < |s.value2enum|
    ensures var text := "<" + s.value2enum[i].name + "/>";
            && TagName(text) == Some(s.value2enum[i].name)
            && (Matches(TagName(text).value, s.value2enum[k]) <==> k == i)
  {
    var name := s.value2enum[i].name;
    var text := "<" + name + "/>";
    assert text[1..] == name + "/>";
    NameBeforeSlash(name, "/>");
    if Matches(name, s.value2enum[k]) {
      assert name == s.value2enum[k].name;
      CompareNamesEqual(name, name);
      assert i in s.enum2value && k in s.enum2value;
      var a :| 0 <= a < |s.enum2value| && s.enum2value[a] == i;
      var b :| 0 <= b < |s.enum2value| && s.enum2value[b] == k;
      assert !(a < b) && !(b < a);
    }
  }

  // ----- normally small numbers: X.691 section 10.6 -----

  /** uper_put_nsnnwn: what is put, None when it is refused. */
  function SmallNumberBits(n: int): Option<seq<bit>>
  {
    if n < 0 then None
    else if n <= 63 then Some(NatToBits(n, 7))
    else if n < 256 then Some(NatToBits(1, 8) + NatToBits(n, 8))
    else if n < 65536 then Some(NatToBits(2, 8) + NatToBits(n, 16))
    else if n < 256 * 65536 then Some(NatToBits(3, 8) + NatToBits(n, 24))
    else None
  }

  /** uper_get_nsnnwn: a number and the bits used for it. */
  datatype Small = Small(value: nat, used: nat)

  function SmallNumber(bits: seq<bit>): Option<Small>
  {
    if |bits| < 7 then None
    else if BitsToNat(bits[..7]) < 64 then Some(Small(BitsToNat(bits[..7]), 7))
    else if |bits| < 9 then None
    else
      var length := BitsToNat(bits[..7]) % 64 * 4 + BitsToNat(bits[7..][..2]);
      if length >= 128 then None
      else if length == 0 then Some(Small(0, 9))
      else if length >= 3 || |bits| < 9 + 8 * length then None
      else Some(Small(BitsToNat(bits[9..][..8 * length]), 9 + 8 * length))
  }

  /** What is put: up to 63 a zero bit and six bits of the number; beyond, the fewest octets that hold the number,
      preceded by their count in eight bits. */
  lemma SmallNumberExactly(n: int)
    ensures SmallNumberBits(n).Some? <==> 0 <= n < Pow256(3)
    ensures 0 <= n <= 63 ==> SmallNumberBits(n).value == [0] + NatToBits(n, 6)
    ensures 63 < n < Pow256(3) ==>
              exists count: nat :: 1 <= count <= 3 && n < Pow256(count) && (count == 1 || n >= Pow256(count - 1))
                && SmallNumberBits(n).value == NatToBits(count, 8) + NatToBits(n, 8 * count)
  {
    assert Pow256(1) == 256 && Pow256(2) == 65536 && Pow256(3) == 256 * 65536;
    if 0 <= n <= 63 {
      SixBits(n);
    }
    hide NatToBits, Pow256;
    var count := if n < 256 then 1 else if n < 65536 then 2 else 3;
    assert 63 < n < Pow256(3) ==> SmallNumberBits(n).value == NatToBits(count, 8) + NatToBits(n, 8 * count);
  }

  lemma SixBits(n: nat)
    requires n < 64
    ensures NatToBits(n, 7) == [0] + NatToBits(n, 6)
  {
    assert P2(6) == 64;
    JoinBits(0, 1, n, 6);
    hide P2;
    assert NatToBits(0, 1) == [0];
  }

  lemma SmallHeads()
    ensures NatToBits(1, 8) == NatToBits(0, 7) + [1] && NatToBits(2, 8) == NatToBits(1, 7) + [0]
    ensures NatToBits(3, 8) == NatToBits(1, 7) + [1]
  {
  }

  /** The reader and the writer disagree from 64 on: the writer puts eight bits of length that begin with a zero, and
      the reader takes seven of them for the number. */
  lemma SmallNumberRoundTrip(n: nat, rest: seq<bit>)
    requires n < 256 * 65536
    ensures SmallNumberBits(n).Some? && SmallNumber(SmallNumberBits(n).value + rest).Some?
    ensures SmallNumber(SmallNumberBits(n).value + rest).value.value == n <==> n <= 63
    ensures n <= 63 ==> SmallNumber(SmallNumberBits(n).value + rest).value.used == |SmallNumberBits(n).value|
  {
    SevenBits();
    if n <= 63 {
      NatBitsNat(n, 7);
      assert (NatToBits(n, 7) + rest)[..7] == NatToBits(n, 7);
    } else {
      SmallHeads();
      NatBitsNat(0, 7);
      NatBitsNat(1, 7);
      hide NatToBits, BitsToNat, P2;
      var bits := SmallNumberBits(n).value + rest;
      var head := if n < 256 then 0 else 1;
      assert bits[..7] == NatToBits(head, 7);
    }
  }

  method PutSmallNumber(n: int, po: BitOutput, accepts: bool) returns (r: int)
    requires po.Valid()
    modifies po, po.tmpspace
    ensures po.Valid()
    ensures r == 0 ==> SmallNumberBits(n).Some? && po.Bits() == old(po.Bits()) + SmallNumberBits(n).value
    ensures r != 0 ==> r == -1
    ensures accepts ==> (r == 0 <==> SmallNumberBits(n).Some?)
  {
    hide NatToBits, P2, BitOutput.Bits;
    if n <= 63 {
      if n < 0 { return -1; }
      r := po.PutFewBits(n, 7, accepts);
      return;
    }
    var bytes;
    if n < 256 {
      bytes := 1;
    } else if n < 65536 {
      bytes := 2;
    } else if n < 256 * 65536 {
      bytes := 3;
    } else {
      return -1;
    }
    ghost var before := po.Bits();
    r := po.PutFewBits(bytes, 8, accepts);
    if r != 0 { return -1; }
    r := po.PutFewBits(n, 8 * bytes, accepts);
    Associate(before, NatToBits(bytes, 8), NatToBits(n, 8 * bytes));
  }

  method GetSmallNumber(pd: BitInput) returns (value: int)
    requires pd.Valid()
    modifies pd
    ensures pd.Valid()
    ensures var small := SmallNumber(old(pd.Remaining()));
            && (value >= 0 <==> small.Some?)
            && (value >= 0 ==> value == small.value.value && pd.Remaining() == old(pd.Remaining())[small.value.used..])
  {
    hide NatToBits, BitsToNat, BitInput.Remaining, P2;
    ghost var all := pd.Remaining();
    value := pd.GetNumber(7);
    SevenBits();
    if value < 64 { return; }
    var low := pd.GetNumber(2);
    if low < 0 { return -1; }
    DropDrop(all, 7, 2);
    var length := value % 64 * 4 + low;
    if length >= 128 { return -1; }
    if length == 0 { return 0; }
    if length >= 3 { return -1; }
    value := pd.GetNumber(8 * length);
    if value >= 0 { DropDrop(all, 9, 8 * length); }
  }

  // ----- unaligned PER -----

  /** The number of root enumerations. */
  function Roots(s: Specifics): nat
    requires s.extension <= |s.value2enum| + 1
  {
    if s.extension != 0 then s.extension - 1 else |s.value2enum|
  }

  /** A PER-visible constraint with a range that holds the roots. */
  datatype Constraint = Constraint(extensible: bool, rangeBits: nat)

  predicate Holds(ct: Constraint, s: Specifics)
  {
    s.extension <= |s.value2enum| + 1 && ct.rangeBits <= 31 && Roots(s) <= P2(ct.rangeBits)
  }

  /** What is put for element index, None when it is refused. */
  function IndexBits(s: Specifics, ct: Constraint, index: nat): Option<seq<bit>>
    requires s.extension <= |s.value2enum| + 1
  {
    var flag: seq<bit> := if !ct.extensible then [] else if index >= Roots(s) then [1] else [0];
    if index < Roots(s) then Some(flag + NatToBits(index, ct.rangeBits))
    else if !ct.extensible || s.extension == 0 then None
    else
      match SmallNumberBits(index - Roots(s))
      case None => None
      case Some(bits) => Some(flag + bits)
  }

  /** The index that is got, and the bits used for it. */
  function Index(s: Specifics, ct: Constraint, bits: seq<bit>): Option<Small>
    requires s.extension <= |s.value2enum| + 1
  {
    var skip := if ct.extensible then 1 else 0;
    if |bits| < skip then None
    else if ct.extensible && bits[0] == 1 then
      if s.extension == 0 then None
      else
        match SmallNumber(bits[1..])
        case None => None
        case Some(small) =>
          if small.value + Roots(s) >= |s.value2enum| then None else Some(Small(small.value + Roots(s), 1 + small.used))
    else if |bits| - skip < ct.rangeBits then None
    else
      var value := BitsToNat(bits[skip..][..ct.rangeBits]);
      if value >= Roots(s) then None else Some(Small(value, skip + ct.rangeBits))
  }

  /** What is put for an element: with an extensible constraint one bit that says whether it is an extension; then the
      index in the bits of the range, or the count from the first extension as a normally small number. */
  lemma IndexBitsExactly(s: Specifics, ct: Constraint, index: nat)
    requires s.extension <= |s.value2enum| + 1
    ensures var roots := if s.extension == 0 then |s.value2enum| else s.extension - 1;
            var isRoot, flag := index < roots, if ct.extensible then [if index < roots then 0 else 1] else [];
            && (isRoot ==> IndexBits(s, ct, index) == Some(flag + NatToBits(index, ct.rangeBits)))
            && (!isRoot && (!ct.extensible || s.extension == 0 || SmallNumberBits(index - roots).None?) ==> IndexBits(s, ct, index) == None)
            && (!isRoot && ct.extensible && s.extension > 0 && SmallNumberBits(index - roots).Some? ==>
                  IndexBits(s, ct, index) == Some(flag + SmallNumberBits(index - roots).value))
  {
    hide NatToBits, SmallNumberBits;
  }

  /** Nothing but an encoding is read as a root: the bits used are those put for the index. */
  lemma RootReadIsWritten(s: Specifics, ct: Constraint, bits: seq<bit>)
    requires s.extension <= |s.value2enum| + 1
    requires Index(s, ct, bits).Some? && (ct.extensible ==> bits[0] == 0)
    ensures var small := Index(s, ct, bits).value;
            && small.value < Roots(s) && small.used <= |bits|
            && IndexBits(s, ct, small.value) == Some(bits[..small.used])
  {
    var skip, r := if ct.extensible then 1 else 0, ct.rangeBits;
    NatBitsBack(bits[skip..][..r]);
    hide NatToBits, BitsToNat, SmallNumber, SmallNumberBits;
    assert bits[..skip + r] == bits[..skip] + bits[skip..][..r];
    assert ct.extensible ==> bits[..1] == [0];
    assert !ct.extensible ==> bits[..0] == [];
  }

  lemma {:induction false} NatBitsBack(bs: seq<bit>)
    ensures NatToBits(BitsToNat(bs), |bs|) == bs
    decreases |bs|
  {
    if bs != [] {
      NatBitsBack(bs[..|bs| - 1]);
      assert BitsToNat(bs) / 2 == BitsToNat(bs[..|bs| - 1]);
    }
  }

  lemma RootRoundTrip(s: Specifics, ct: Constraint, index: nat, rest: seq<bit>)
    requires Holds(ct, s) && index < Roots(s)
    ensures var bits := IndexBits(s, ct, index).value;
            Index(s, ct, bits + rest) == Some(Small(index, |bits|))
  {
    NatBitsNat(index, ct.rangeBits) by { assert index < P2(ct.rangeBits); }
    hide NatToBits, BitsToNat, P2, Roots, SmallNumber, SmallNumberBits;
    FieldBehind(if ct.extensible then [0] else [], NatToBits(index, ct.rangeBits), rest);
  }

  lemma FieldBehind<T>(flag: seq<T>, field: seq<T>, rest: seq<T>)
    ensures ((flag + field) + rest)[|flag|..][..|field|] == field
    ensures flag != [] ==> ((flag + field) + rest)[0] == flag[0]
  {
    assert ((flag + field) + rest)[|flag|..] == field + rest;
  }

  /** Every value of the table comes back from unaligned PER, except the 65th and later extension values. */
  lemma UperRoundTrip(s: Specifics, ct: Constraint, index: nat, rest: seq<bit>)
    requires Holds(ct, s) && index < |s.value2enum| && IndexBits(s, ct, index).Some?
    ensures var bits := IndexBits(s, ct, index).value;
            Index(s, ct, bits + rest) == Some(Small(index, |bits|)) <==> index < Roots(s) + 64
  {
    if index < Roots(s) {
      RootRoundTrip(s, ct, index, rest);
    } else {
      hide NatToBits, BitsToNat, P2, SmallNumber, SmallNumberBits;
      var n := index - Roots(s);
      SmallRange(n);
      SmallNumberRoundTrip(n, rest);
      FlagFirst(SmallNumberBits(n).value, rest);
    }
  }

  lemma SmallRange(n: nat)
    ensures SmallNumberBits(n).Some? <==> n < 256 * 65536
  {
  }

  lemma FlagFirst(bits: seq<bit>, rest: seq<bit>)
    ensures (([1] + bits) + rest)[1..] == bits + rest && (([1] + bits) + rest)[0] == 1
  {
  }

  /** NativeEnumerated_encode_uper */
  method EncodeUper(s: Specifics, ct: Constraint, native: int, po: BitOutput, accepts: bool) returns (ok: bool)
    requires WellFormed(s) && Holds(ct, s) && po.Valid()
    modifies po, po.tmpspace
    ensures po.Valid()
    ensures ok ==> exists i: nat :: i < |s.value2enum| && s.value2enum[i].value == native && IndexBits(s, ct, i).Some?
                                 && po.Bits() == old(po.Bits()) + IndexBits(s, ct, i).value
    ensures accepts ==> (ok <==> exists i: nat :: i < |s.value2enum| && s.value2enum[i].value == native && IndexBits(s, ct, i).Some?)
  {
    hide NatToBits, P2, BitOutput.Bits, SmallNumberBits;
    var value := ValueToEnum(s, native);
    if value < 0 { return false; }
    OnlyIndex(s, native, value);
    ok := PutIndex(s, ct, value, po, accepts);
  }

  lemma OnlyIndex(s: Specifics, native: int, index: nat)
    requires SortedByValue(s) && index < |s.value2enum| && s.value2enum[index].value == native
    ensures forall i: nat :: i < |s.value2enum| && s.value2enum[i].value == native ==> i == index
  {
    forall i: nat | i < |s.value2enum| && s.value2enum[i].value == native ensures i == index {
      assert !(i < index) && !(index < i);
    }
  }

  method PutIndex(s: Specifics, ct: Constraint, value: nat, po: BitOutput, accepts: bool) returns (ok: bool)
    requires Holds(ct, s) && value < |s.value2enum| && po.Valid()
    modifies po, po.tmpspace
    ensures po.Valid()
    ensures ok ==> IndexBits(s, ct, value).Some? && po.Bits() == old(po.Bits()) + IndexBits(s, ct, value).value
    ensures accepts ==> (ok <==> IndexBits(s, ct, value).Some?)
  {
    hide NatToBits, P2, BitOutput.Bits, SmallNumberBits;
    ghost var before := po.Bits();
    var cmpWith := if s.extension != 0 then s.extension - 1 else |s.value2enum|;
    var inext := if value >= cmpWith then 1 else 0;
    var r;
    ghost var flag: seq<bit> := [];
    if ct.extensible {
      r := po.PutFewBits(inext, 1, accepts);
      if r != 0 { return false; }
      OneBit(inext, 1);
      flag := [inext];
    } else if inext == 1 {
      return false;
    }
    assert po.Bits() == before + flag by { assert before + [] == before; }
    if inext == 0 {
      r := po.PutFewBits(value, ct.rangeBits, accepts);
      Associate(before, flag, NatToBits(value, ct.rangeBits));
      return r == 0;
    }
    if s.extension == 0 { return false; }
    r := PutSmallNumber(value - (s.extension - 1), po, accepts);
    if r == 0 { Associate(before, flag, SmallNumberBits(value - (s.extension - 1)).value); }
    ok := r == 0;
  }

  /** NativeEnumerated_decode_uper */
  method DecodeUper(s: Specifics, ct: Constraint, pd: BitInput) returns (native: Option<int>)
    requires WellFormed(s) && Holds(ct, s) && pd.Valid()
    modifies pd
    ensures pd.Valid()
    ensures var index := Index(s, ct, old(pd.Remaining()));
            && (native.Some? <==> index.Some?)
            && (native.Some? ==> index.value.value < |s.value2enum| && native.value == s.value2enum[index.value.value].value)
            && (native.Some? ==> pd.Remaining() == old(pd.Remaining())[index.value.used..])
  {
    hide NatToBits, P2, BitInput.Remaining, SmallNumber;
    ghost var all := pd.Remaining();
    var inext := 0;
    if ct.extensible {
      inext := pd.GetNumber(1);
      if inext < 0 { return None; }
      FirstBit(all);
    }
    hide BitsToNat;
    ghost var bits := pd.Remaining();
    var value;
    if inext == 0 {
      value := pd.GetNumber(ct.rangeBits);
      if value < 0 { return None; }
      if value >= (if s.extension != 0 then s.extension - 1 else |s.value2enum|) { return None; }
      if ct.extensible { DropDrop(all, 1, ct.rangeBits); }
    } else {
      if s.extension == 0 { return None; }
      value := GetSmallNumber(pd);
      if value < 0 { return None; }
      value := value + (s.extension - 1);
      if value >= |s.value2enum| { return None; }
      SmallUsed(bits);
      DropDrop(all, 1, SmallNumber(bits).value.used);
    }
    native := Some(s.value2enum[value].value);
  }

  lemma SmallUsed(bits: seq<bit>)
    requires SmallNumber(bits).Some?
    ensures SmallNumber(bits).value.used <= |bits|
  {
  }
}
