/** OCTET STRING in XER: the hexadecimal printer and the resumable hexadecimal parser. */
module OctetStringXer {
  import opened Text
  import opened Bytes
  import opened BitSeqs
  import opened Seqs

  // ----- what a text means -----

  /** A text the parser accepts; only its digits matter. */
  predicate IsHexText(s: string)
  {
    forall i :: 0 <= i < |s| ==> IsHex(s[i]) || IsXerSpace(s[i])
  }

  type nibble = n: int | 0 <= n < 16

  /** The hexadecimal digits of a text. */
  function Nibbles(s: string): (r: seq<nibble>)
    ensures |r| <= |s|
  {
    if s == "" then []
    else
      var before, c := Nibbles(s[..|s| - 1]), s[|s| - 1];
      if IsHex(c) then before + [HexValue(c)] else before
  }

  function Octet(high: nibble, low: nibble): byte { (high as int) * 16 + low }

  /** Two digits to the octet; an odd last digit is left over. */
  function Pairs(ns: seq<nibble>): (r: seq<byte>)
    ensures |r| == |ns| / 2
  {
    if |ns| < 2 then [] else [Octet(ns[0], ns[1])] + Pairs(ns[2..])
  }

  /** What digits become: with have_more an odd last one fills a half octet. */
  function Octets(ns: seq<nibble>, haveMore: bool): seq<byte>
  {
    if haveMore && |ns| % 2 == 1 then Pairs(ns) + [Octet(ns[|ns| - 1], 0)] else Pairs(ns)
  }

  /** How much of the text one call takes: not the odd last digit nor what follows the digit before it. */
  function Taken(s: string, haveMore: bool): (n: nat)
    ensures n <= |s|
  {
    if haveMore || |Nibbles(s)| % 2 == 0 then |s| else AfterPair(s)
  }

  /** The index after the digit that completed the last pair, 0 if there is none. */
  function AfterPair(s: string): (n: nat)
    ensures n <= |s|
  {
    if s == "" then 0
    else if |Nibbles(s)| % 2 == 0 && IsHex(s[|s| - 1]) then |s|
    else AfterPair(s[..|s| - 1])
  }

  // ----- texts and digits put together -----

  lemma NibblesSnoc(s: string)
    ensures s == "" ==> Nibbles(s) == []
    ensures s != "" ==> Nibbles(s) == Nibbles(s[..|s| - 1]) + if IsHex(s[|s| - 1]) then [HexValue(s[|s| - 1])] else []
  {
  }

  lemma {:induction false} NibblesAppend(a: string, b: string)
    ensures Nibbles(a + b) == Nibbles(a) + Nibbles(b)
    decreases |b|
  {
    hide Nibbles;
    NibblesSnoc(b);
    if b == "" {
      assert a + b == a;
    } else {
      var front, ab := b[..|b| - 1], a + b;
      NibblesAppend(a, front);
      assert ab[..|ab| - 1] == a + front && ab[|ab| - 1] == b[|b| - 1];
      NibblesSnoc(ab);
      Associate(Nibbles(a), Nibbles(front), if IsHex(b[|b| - 1]) then [HexValue(b[|b| - 1])] else []);
    }
  }

  lemma PairsStep(ns: seq<nibble>)
    requires |ns| >= 2
    ensures Pairs(ns) == [Octet(ns[0], ns[1])] + Pairs(ns[2..])
  {
  }

  lemma {:induction false} PairsAppend(a: seq<nibble>, b: seq<nibble>)
    requires |a| % 2 == 0
    ensures Pairs(a + b) == Pairs(a) + Pairs(b)
    decreases |a|
  {
    if a == [] {
      assert a + b == b;
    } else {
      hide Pairs;
      assert (a + b)[2..] == a[2..] + b;
      PairsStep(a);
      PairsStep(a + b);
      PairsAppend(a[2..], b);
    }
  }

  lemma OctetsAppend(a: seq<nibble>, b: seq<nibble>, haveMore: bool)
    requires |a| % 2 == 0
    ensures Octets(a + b, haveMore) == Pairs(a) + Octets(b, haveMore)
  {
    hide Pairs, Octets, HalfOctet;
    PairsAppend(a, b);
    OctetsAre(b, haveMore);
    OctetsAre(a + b, haveMore);
    SameHalfOctet(a, b, haveMore);
    Associate(Pairs(a), Pairs(b), HalfOctet(b, haveMore));
  }

  /** What an odd last digit adds. */
  function HalfOctet(ns: seq<nibble>, haveMore: bool): seq<byte>
  {
    if haveMore && |ns| % 2 == 1 then [Octet(ns[|ns| - 1], 0)] else []
  }

  lemma OctetsAre(ns: seq<nibble>, haveMore: bool)
    ensures Octets(ns, haveMore) == Pairs(ns) + HalfOctet(ns, haveMore)
  {
    hide Pairs, Octet;
    Associate(Pairs(ns), [], []);
  }

  lemma SameHalfOctet(a: seq<nibble>, b: seq<nibble>, haveMore: bool)
    requires |a| % 2 == 0
    ensures HalfOctet(a + b, haveMore) == HalfOctet(b, haveMore)
  {
    hide Octet;
    OddLength(|a|, |b|);
  }

  lemma OddLength(m: nat, n: nat)
    requires m % 2 == 0
    ensures (m + n) % 2 == n % 2
  {
  }

  lemma AfterPairSnoc(s: string)
    requires s != ""
    ensures AfterPair(s) == if |Nibbles(s)| % 2 == 0 && IsHex(s[|s| - 1]) then |s| else AfterPair(s[..|s| - 1])
  {
  }

  lemma EmptyText()
    ensures AfterPair("") == 0 && Nibbles("") == []
  {
  }

  lemma {:induction false} AfterPairAppend(a: string, b: string)
    requires |Nibbles(a)| % 2 == 0
    ensures AfterPair(a + b) == if AfterPair(b) > 0 then |a| + AfterPair(b) else AfterPair(a)
    decreases |b|
  {
    hide AfterPair, Nibbles;
    if b == "" {
      assert a + b == a;
      EmptyText();
    } else {
      var ab := a + b;
      NibblesAppend(a, b);
      AfterPairSnoc(ab);
      AfterPairSnoc(b);
      assert ab[..|ab| - 1] == a + b[..|b| - 1] && ab[|ab| - 1] == b[|b| - 1];
      AfterPairAppend(a, b[..|b| - 1]);
    }
  }

  /** Up to there the text has whole pairs, all that it has; and it ends with a digit. */
  lemma {:induction false} AfterPairEven(s: string)
    ensures var n := AfterPair(s);
            |Nibbles(s[..n])| == |Nibbles(s)| / 2 * 2 && AfterPair(s[..n]) == n && (|Nibbles(s)| <= 1 <==> n == 0)
  {
    if s == "" {
    } else if |Nibbles(s)| % 2 == 0 && IsHex(s[|s| - 1]) {
      assert s[..|s|] == s;
    } else {
      var front := s[..|s| - 1];
      AfterPairEven(front);
      assert s[..AfterPair(s)] == front[..AfterPair(front)];
    }
  }

  // ----- chunk independence -----

  /** All of a text is taken, unless its digits are odd and no more is to come: then what stands up to the last digit
      but one, or nothing when there is but one digit. */
  lemma {:induction false} TakenExactly(s: string, haveMore: bool)
    ensures var n := Taken(s, haveMore);
            if haveMore || |Nibbles(s)| % 2 == 0 then n == |s|
            else |Nibbles(s[..n])| == |Nibbles(s)| - 1 && (n > 0 ==> IsHex(s[n - 1]))
  {
    if !haveMore && |Nibbles(s)| % 2 == 1 { PairBefore(s); }
  }

  lemma {:induction false} PairBefore(s: string)
    requires |Nibbles(s)| % 2 == 1
    ensures var n := AfterPair(s); |Nibbles(s[..n])| == |Nibbles(s)| - 1 && (n > 0 ==> IsHex(s[n - 1]))
  {
    var front := s[..|s| - 1];
    if IsHex(s[|s| - 1]) {
      DigitsBefore(front);
      assert s[..AfterPair(front)] == front[..AfterPair(front)];
    } else {
      PairBefore(front);
      assert s[..AfterPair(front)] == front[..AfterPair(front)];
    }
  }

  lemma {:induction false} DigitsBefore(s: string)
    requires |Nibbles(s)| % 2 == 0
    ensures var n := AfterPair(s); Nibbles(s[..n]) == Nibbles(s) && (n > 0 ==> IsHex(s[n - 1]))
  {
    if s != "" {
      if IsHex(s[|s| - 1]) {
        assert s[..|s|] == s;
      } else {
        DigitsBefore(s[..|s| - 1]);
        assert s[..AfterPair(s)] == s[..|s| - 1][..AfterPair(s)];
      }
    }
  }

  /** No digit from i to j; so in an accepted text, only white space. */
  predicate NoDigitBetween(s: string, i: nat, j: nat)
  {
    i <= j <= |s| && Nibbles(s[i..j]) == []
  }

  lemma NoDigitNowhere(s: string, i: nat)
    requires i <= |s|
    ensures NoDigitBetween(s, i, i)
  {
    assert s[i..i] == "";
  }

  lemma NoDigitAfterPair(a: string)
    requires |Nibbles(a)| % 2 == 0
    ensures Nibbles(a[AfterPair(a)..]) == []
  {
    hide Nibbles, AfterPair;
    var n := AfterPair(a);
    AfterPairEven(a);
    assert a == a[..n] + a[n..];
    NibblesAppend(a[..n], a[n..]);
  }

  /** Splitting a text anywhere and presenting what the first call left again before the rest gives the
      same octets as one call. It takes as much of the text, or else some white space more. */
  lemma ChunkIndependence(a: string, b: string, haveMore: bool, n: nat, rest: string, one: nat, two: nat)
    requires n == Taken(a, false) && n <= |a| && rest == a[n..] + b
    requires one == Taken(a + b, haveMore) && two == n + Taken(rest, haveMore)
    ensures Octets(Nibbles(a), false) + Octets(Nibbles(rest), haveMore) == Octets(Nibbles(a + b), haveMore)
    ensures NoDigitBetween(a + b, one, two)
    ensures one == two <==> haveMore || |Nibbles(a)| % 2 == 1 || |Nibbles(b)| != 1 || AfterPair(a) == |a|
  {
    hide Nibbles, AfterPair, Octets, NoDigitBetween, Taken;
    NibblesAppend(a, b);
    TakenIs(a);
    if |Nibbles(a)| % 2 == 0 {
      WholePairs(a, b, haveMore, rest);
    } else {
      OddDigit(a, b, haveMore, n, a[..n], a[n..], rest);
    }
  }

  /** White space after whole octets, then a single digit: the first of two calls takes the white space, one call
      leaves it. */
  lemma SplitTakesMore(a: string, b: string)
    requires a == "AB " && b == "C"
    ensures Taken(a, false) == 3 && Taken(a + b, false) == 2 && Taken(b, false) == 0
    ensures Octets(Nibbles(a), false) == Octets(Nibbles(a + b), false) == [0xAB] && Octets(Nibbles(b), false) == []
  {
    var ab, c := a[..2], a + b;
    assert a[..1] == "A" && ab[..1] == "A" && "A"[..0] == "" && c[..3] == a && b[..0] == "";
    assert Nibbles("A") == [] + [10] && Nibbles(ab) == Nibbles("A") + [11];
    assert Nibbles(a) == Nibbles(ab) && Nibbles(c) == Nibbles(a) + [12] && Nibbles(b) == [] + [12];
    assert AfterPair(c) == AfterPair(a) == AfterPair(ab) == 2;
    assert AfterPair(b) == AfterPair("") == 0;
    assert Pairs(Nibbles(a)[2..]) == [] && Pairs(Nibbles(c)[2..]) == [];
  }

  lemma TakenIs(s: string)
    ensures Taken(s, false) == if |Nibbles(s)| % 2 == 0 then |s| else AfterPair(s)
  {
    hide Nibbles, AfterPair;
  }

  /** The first call takes all of a. */
  lemma WholePairs(a: string, b: string, haveMore: bool, rest: string)
    requires |Nibbles(a)| % 2 == 0 && rest == a[|a|..] + b && Nibbles(a + b) == Nibbles(a) + Nibbles(b)
    ensures Octets(Nibbles(a), false) + Octets(Nibbles(rest), haveMore) == Octets(Nibbles(a + b), haveMore)
    ensures NoDigitBetween(a + b, Taken(a + b, haveMore), |a| + Taken(rest, haveMore))
    ensures Taken(a + b, haveMore) == |a| + Taken(rest, haveMore) <==> haveMore || |Nibbles(b)| != 1 || AfterPair(a) == |a|
  {
    hide Nibbles, AfterPair, Pairs;
    assert rest == b;
    OctetsAppend(Nibbles(a), Nibbles(b), haveMore);
    if haveMore || |Nibbles(b)| % 2 == 0 {
      NoDigitNowhere(a + b, |a + b|);
    } else {
      AfterPairEven(b);
      AfterPairAppend(a, b);
      NoDigitAfterPair(a);
      assert (a + b)[AfterPair(a)..|a|] == a[AfterPair(a)..];
      NoDigitNowhere(a + b, |a| + AfterPair(b));
    }
  }

  /** The first call leaves an odd digit. */
  lemma OddDigit(a: string, b: string, haveMore: bool, n: nat, head: string, left: string, rest: string)
    requires |Nibbles(a)| % 2 == 1 && n == AfterPair(a) && head == a[..n] && left == a[n..] && rest == left + b
    requires Nibbles(a + b) == Nibbles(a) + Nibbles(b)
    ensures Octets(Nibbles(a), false) + Octets(Nibbles(rest), haveMore) == Octets(Nibbles(a + b), haveMore)
    ensures Taken(a + b, haveMore) == n + Taken(rest, haveMore)
    ensures NoDigitBetween(a + b, Taken(a + b, haveMore), n + Taken(rest, haveMore))
  {
    hide Nibbles, AfterPair, Pairs;
    AfterPairEven(a);
    assert a == head + left && a + b == head + rest;
    NibblesAppend(head, left);
    NibblesAppend(head, rest);
    OneLeft(Nibbles(head), Nibbles(left));
    OctetsAppend(Nibbles(head), Nibbles(rest), haveMore);
    AfterPairAppend(head, rest);
    NoDigitNowhere(a + b, Taken(a + b, haveMore));
  }

  lemma OneLeft(head: seq<nibble>, left: seq<nibble>)
    requires |head| % 2 == 0 && |left| == 1
    ensures Octets(head + left, false) == Pairs(head)
  {
    PairsAppend(head, left);
    assert Pairs(left) == [];
  }

  // ----- the printer -----

  function OctetText(b: byte): (r: string)
    ensures |r| == 2 && IsHexText(r) && Nibbles(r) == [b / 16, b % 16]
  {
    var r := [H2c(b / 16), H2c(b % 16)];
    assert r[..1][..0] == "" && r[..1] == [H2c(b / 16)];
    assert Nibbles(r[..1]) == Nibbles("") + [b / 16];
    assert Nibbles(r) == Nibbles(r[..1]) + [b % 16];
    r
  }

  /** The text of the first n octets: without white space when canonical; otherwise each followed by a space,
      and an indented new line before every sixteenth when there are more than sixteen. */
  function Body(octets: seq<byte>, n: nat, canonical: bool, level: int): string
    requires n <= |octets|
  {
    if n == 0 then ""
    else
      Body(octets, n - 1, canonical, level)
      + (if canonical then OctetText(octets[n - 1])
         else (if NewLine(octets, n - 1) then Indent(level) else "") + OctetText(octets[n - 1]) + " ")
  }

  predicate NewLine(octets: seq<byte>, i: nat) { i % 16 == 0 && (i > 0 || |octets| > 16) }

  /** What OCTET_STRING_encode_xer hands to its callback, in all. */
  function XerText(octets: seq<byte>, canonical: bool, level: int): string
  {
    var body := Body(octets, |octets|, canonical, level);
    if canonical || octets == [] then body
    else body[..|body| - 1] + if |octets| > 16 then Indent(level - 1) else ""
  }

  // ----- where each character stands -----

  /** How many new lines stand before octet i is printed: none up to sixteen octets, else one for each row begun. */
  function LinesBefore(count: nat, i: nat): nat { if count > 16 then i / 16 + 1 else 0 }

  function Times(m: nat, n: nat): nat { m * n }

  /** The place of octet i, with new lines of that length: three characters for each octet before it. */
  function Place(count: nat, i: nat, newLine: nat): nat { 3 * i + Times(newLine, LinesBefore(count, i)) }

  /** The length of the text of the first n octets, each with its space. */
  function BodyLength(count: nat, n: nat, newLine: nat): nat
  {
    3 * n + Times(newLine, if count > 16 then (n + 15) / 16 else 0)
  }

  lemma OneMoreLine(count: nat, n: nat, newLine: nat)
    requires n < count
    ensures var starts := count > 16 && n % 16 == 0;
            && Place(count, n, newLine) == BodyLength(count, n, newLine) + (if starts then newLine else 0)
            && BodyLength(count, n + 1, newLine) == Place(count, n, newLine) + 3
            && (starts <==> n % 16 == 0 && (n > 0 || count > 16))
  {
    assert (n + 15) / 16 + (if n % 16 == 0 then 1 else 0) == n / 16 + 1 && (n + 1 + 15) / 16 == n / 16 + 1;
    var k := (n + 15) / 16;
    assert Times(newLine, k + 1) == Times(newLine, k) + newLine;
  }

  /** Two characters, a space after them, and a line break before them. */
  predicate Stands(s: string, at: nat, two: string, line: string)
  {
    && |two| == 2 && at + 3 <= |s| && s[at] == two[0] && s[at + 1] == two[1] && s[at + 2] == ' '
    && |line| <= at && forall k :: 0 <= k < |line| ==> s[at - |line| + k] == line[k]
  }

  function LineOf(octets: seq<byte>, i: nat, level: int): string { if NewLine(octets, i) then Indent(level) else "" }

  lemma {:induction false} BodyLong(octets: seq<byte>, n: nat, level: int)
    requires n <= |octets|
    ensures |Body(octets, n, false, level)| == BodyLength(|octets|, n, |Indent(level)|)
  {
    if n == 0 {
      NoBodyYet(octets, level);
    } else {
      hide Indent, OctetText, Place, BodyLength, Body;
      BodyLong(octets, n - 1, level);
      BodyStep(octets, n - 1, false, level);
      OneMoreLine(|octets|, n - 1, |Indent(level)|);
    }
  }

  lemma {:induction false} BodyPlaces(octets: seq<byte>, n: nat, i: nat, level: int)
    requires i < n <= |octets|
    ensures Stands(Body(octets, n, false, level), Place(|octets|, i, |Indent(level)|), OctetText(octets[i]), LineOf(octets, i, level))
    decreases n
  {
    hide *;
    var before, two, line := Body(octets, n - 1, false, level), OctetText(octets[n - 1]), LineOf(octets, n - 1, level);
    PieceOf(octets, n, level);
    if i < n - 1 {
      BodyPlaces(octets, n - 1, i, level);
      StandsStill(before, line + two + " ", Place(|octets|, i, |Indent(level)|), OctetText(octets[i]), LineOf(octets, i, level));
    } else {
      LastStands(before, line, two);
    }
  }

  lemma PieceOf(octets: seq<byte>, n: nat, level: int)
    requires 0 < n <= |octets|
    ensures var before, line := Body(octets, n - 1, false, level), LineOf(octets, n - 1, level);
            && Body(octets, n, false, level) == before + (line + OctetText(octets[n - 1]) + " ")
            && |before| + |line| == Place(|octets|, n - 1, |Indent(level)|)
  {
    hide Indent, OctetText, Place, BodyLength, Body;
    BodyStep(octets, n - 1, false, level);
    BodyLong(octets, n - 1, level);
    OneMoreLine(|octets|, n - 1, |Indent(level)|);
  }

  lemma NoBodyYet(octets: seq<byte>, level: int)
    ensures Body(octets, 0, false, level) == "" && BodyLength(|octets|, 0, |Indent(level)|) == 0
  {
  }

  lemma LastStands(before: string, line: string, two: string)
    requires |two| == 2
    ensures Stands(before + (line + two + " "), |before| + |line|, two, line)
  {
  }

  lemma StandsStill(before: string, more: string, at: nat, two: string, line: string)
    requires Stands(before, at, two, line)
    ensures Stands(before + more, at, two, line)
  {
  }

  /** Two upper-case digits, high half first. */
  predicate PrintedAt(s: string, at: nat, b: byte)
  {
    at + 2 <= |s| && s[at] == "0123456789ABCDEF"[b / 16] && s[at + 1] == "0123456789ABCDEF"[b % 16]
  }

  predicate LineAt(s: string, at: nat, line: string)
  {
    |line| <= at <= |s| && forall k :: 0 <= k < |line| ==> s[at - |line| + k] == line[k]
  }

  predicate BeginsRow(count: nat, i: nat) { count > 16 && i % 16 == 0 }

  /** The indented text, character by character: for each octet two upper-case digits at its place; a space between
      octets; and with more than sixteen octets, a new line before every sixteenth and one at the end. */
  lemma LayoutExactly(octets: seq<byte>, level: int, i: nat)
    requires i < |octets|
    ensures var s, newLine := XerText(octets, false, level), |Indent(level)|;
            var at, end := Place(|octets|, i, newLine), Place(|octets|, |octets| - 1, newLine) + 2;
            && PrintedAt(s, at, octets[i]) && at + 2 <= end <= |s|
            && s[end..] == (if |octets| > 16 then Indent(level - 1) else "")
            && (i < |octets| - 1 ==> at + 2 < end && s[at + 2] == ' ')
            && (BeginsRow(|octets|, i) ==> LineAt(s, at, Indent(level)))
  {
    hide *;
    var tail := if |octets| > 16 then Indent(level - 1) else "";
    BodyEnd(octets, level, i);
    TailOnBody(octets, level, tail);
    LineOfExactly(octets, i, level);
    CutLast(Body(octets, |octets|, false, level), tail, Place(|octets|, i, |Indent(level)|), octets[i], LineOf(octets, i, level));
  }

  lemma TailOnBody(octets: seq<byte>, level: int, tail: string)
    requires octets != [] && tail == if |octets| > 16 then Indent(level - 1) else ""
    ensures var body := Body(octets, |octets|, false, level);
            body != "" && XerText(octets, false, level) == body[..|body| - 1] + tail
  {
    BodyDigits(octets, |octets|, false, level);
    hide Indent, Body;
  }

  lemma BodyEnd(octets: seq<byte>, level: int, i: nat)
    requires i < |octets|
    ensures var body, newLine := Body(octets, |octets|, false, level), |Indent(level)|;
            var at, last := Place(|octets|, i, newLine), Place(|octets|, |octets| - 1, newLine);
            && |body| == last + 3 && (i < |octets| - 1 ==> at + 3 <= last) && (i == |octets| - 1 ==> at == last)
            && Stands(body, at, OctetText(octets[i]), LineOf(octets, i, level))
  {
    hide Indent, Place, BodyLength, Body, OctetText, LineOf, Stands;
    var n, newLine := |octets|, |Indent(level)|;
    BodyPlaces(octets, n, i, level);
    BodyLong(octets, n, level);
    OneMoreLine(n, n - 1, newLine);
    if i < n - 1 { PlacesGrow(n, i, n - 1, newLine); }
  }

  lemma LineOfExactly(octets: seq<byte>, i: nat, level: int)
    requires i < |octets|
    ensures BeginsRow(|octets|, i) ==> LineOf(octets, i, level) == Indent(level)
  {
    hide Indent;
  }

  lemma PlacesGrow(count: nat, i: nat, j: nat, newLine: nat)
    requires i < j
    ensures Place(count, i, newLine) + 3 <= Place(count, j, newLine)
  {
    var a, b := LinesBefore(count, i), LinesBefore(count, j);
    assert a <= b;
    assert newLine * (b - a) >= 0;
    assert Times(newLine, b) == Times(newLine, a) + newLine * (b - a);
  }

  lemma CutLast(body: string, tail: string, at: nat, b: byte, line: string)
    requires Stands(body, at, OctetText(b), line)
    ensures var s := body[..|body| - 1] + tail;
            && PrintedAt(s, at, b) && LineAt(s, at, line) && at + 3 <= |body| && s[|body| - 1..] == tail
            && (at + 3 < |body| ==> s[at + 2] == ' ')
  {
    H2cExactly(b / 16);
    H2cExactly(b % 16);
  }

  /** The canonical text: two upper-case digits for each octet and nothing else. */
  lemma {:induction false} CanonicalExactly(octets: seq<byte>, n: nat, level: int, i: nat)
    requires i < n <= |octets|
    ensures |Body(octets, n, true, level)| == 2 * n && PrintedAt(Body(octets, n, true, level), 2 * i, octets[i])
    ensures n == |octets| ==> XerText(octets, true, level) == Body(octets, n, true, level)
    decreases n
  {
    hide Nibbles, IsHexText;
    H2cExactly(octets[i] / 16);
    H2cExactly(octets[i] % 16);
    if n > 1 {
      CanonicalExactly(octets, n - 1, level, if i < n - 1 then i else 0);
    } else {
      assert Body(octets, 0, true, level) == "";
    }
  }

  /** What digits become, octet by octet: high half first; with have_more an odd last digit is a high half. */
  lemma {:induction false} OctetsExactly(ns: seq<nibble>, haveMore: bool, k: nat)
    ensures var r := Octets(ns, haveMore);
            && |r| == (if haveMore then (|ns| + 1) / 2 else |ns| / 2)
            && (2 * k + 1 < |ns| ==> r[k] == (ns[2 * k] as int) * 16 + ns[2 * k + 1])
            && (haveMore && 2 * k + 1 == |ns| ==> r[k] == (ns[2 * k] as int) * 16)
  {
    PairsExactly(ns, k);
    hide Pairs;
  }

  lemma {:induction false} PairsExactly(ns: seq<nibble>, k: nat)
    ensures 2 * k + 1 < |ns| ==> Pairs(ns)[k] == (ns[2 * k] as int) * 16 + ns[2 * k + 1]
    decreases |ns|
  {
    if |ns| >= 2 && k > 0 { PairsExactly(ns[2..], k - 1); }
  }

  lemma {:induction false} SpaceHasNoDigits(s: string)
    requires AllXerSpace(s)
    ensures IsHexText(s) && Nibbles(s) == []
  {
    if s != "" { SpaceHasNoDigits(s[..|s| - 1]); }
  }

  function Digits(octets: seq<byte>): seq<nibble>
  {
    if octets == [] then [] else Digits(octets[..|octets| - 1]) + [octets[|octets| - 1] / 16, octets[|octets| - 1] % 16]
  }

  lemma {:induction false} PairsOfDigits(octets: seq<byte>)
    ensures |Digits(octets)| == 2 * |octets| && Pairs(Digits(octets)) == octets
  {
    if octets != [] {
      var front, last := octets[..|octets| - 1], octets[|octets| - 1];
      PairsOfDigits(front);
      var two: seq<nibble> := [last / 16, last % 16];
      PairsAppend(Digits(front), two);
      PairsStep(two);
      assert two[2..] == [] && Pairs(two[2..]) == [];
      assert front + [last] == octets;
    }
  }

  lemma HexTextAppend(a: string, b: string)
    requires IsHexText(a) && IsHexText(b)
    ensures IsHexText(a + b)
  {
  }

  lemma {:induction false} BodyDigits(octets: seq<byte>, n: nat, canonical: bool, level: int)
    requires n <= |octets|
    ensures var s := Body(octets, n, canonical, level);
            && IsHexText(s) && Nibbles(s) == Digits(octets[..n])
            && (canonical ==> |s| == 2 * n) && (!canonical && n > 0 ==> s != "" && s[|s| - 1] == ' ')
  {
    if n > 0 {
      BodyDigits(octets, n - 1, canonical, level);
      PieceDigits(octets, n, canonical, level, Body(octets, n - 1, canonical, level), OctetText(octets[n - 1]));
    }
  }

  lemma PieceDigits(octets: seq<byte>, n: nat, canonical: bool, level: int, before: string, two: string)
    requires 0 < n <= |octets| && before == Body(octets, n - 1, canonical, level) && two == OctetText(octets[n - 1])
    requires IsHexText(before) && Nibbles(before) == Digits(octets[..n - 1])
    ensures var s := Body(octets, n, canonical, level);
            && IsHexText(s) && Nibbles(s) == Digits(octets[..n])
            && (canonical ==> |s| == |before| + 2) && (!canonical ==> s != "" && s[|s| - 1] == ' ')
  {
    hide Nibbles, Indent, IsHexText;
    var line := if NewLine(octets, n - 1) then Indent(level) else "";
    assert octets[..n][..n - 1] == octets[..n - 1];
    assert Digits(octets[..n]) == Digits(octets[..n - 1]) + Nibbles(two);
    HexTextAppend(before, two);
    NibblesAppend(before, two);
    SpaceHasNoDigits(line);
    SpaceHasNoDigits(" ");
    HexTextAppend(line, two);
    HexTextAppend(line + two, " ");
    HexTextAppend(before, line + two + " ");
    NibblesAppend(line, two);
    NibblesAppend(line + two, " ");
    NibblesAppend(before, line + two + " ");
    assert [] + Nibbles(two) + [] == Nibbles(two);
  }

  /** Printing and parsing: canonical or indented, with or without have_more, the octets come back and the
      whole text is taken. */
  lemma XerRoundTrip(octets: seq<byte>, canonical: bool, level: int, haveMore: bool)
    ensures var s := XerText(octets, canonical, level);
            && IsHexText(s) && Octets(Nibbles(s), haveMore) == octets && Taken(s, haveMore) == |s|
            && (canonical ==> |s| == 2 * |octets|)
  {
    hide Nibbles, Indent, Body, Pairs, Digits, IsHexText;
    var n := |octets|;
    var body := Body(octets, n, canonical, level);
    BodyDigits(octets, n, canonical, level);
    assert octets[..n] == octets;
    PairsOfDigits(octets);
    if !canonical && octets != [] {
      var front := body[..|body| - 1];
      var tail := if |octets| > 16 then Indent(level - 1) else "";
      NibblesSnoc(body);
      PrefixIsHexText(body, |body| - 1);
      SpaceHasNoDigits(tail);
      HexTextAppend(front, tail);
      NibblesAppend(front, tail);
    }
  }

  lemma PrefixIsHexText(s: string, n: nat)
    requires IsHexText(s) && n <= |s|
    ensures IsHexText(s[..n])
  {
  }

  // ----- the two functions over their buffers -----

  class OctetString {
    var buf: array?<byte>
    var size: nat

    constructor ()
      ensures Valid() && Contents() == []
    {
      buf, size := null, 0;
    }

    predicate Valid()
      reads this
    {
      if buf == null then size == 0 else size < buf.Length
    }

    function Contents(): seq<byte>
      requires Valid()
      reads this, buf
    {
      if buf == null then [] else buf[..size]
    }

    /** REALLOC(st->buf, length): what was stored stays, the rest is arbitrary. */
    method Realloc(length: nat)
      requires Valid() && size < length
      modifies this`buf
      ensures Valid() && buf != null && fresh(buf) && buf.Length == length && Contents() == old(Contents())
    {
      var fresher := new byte[length];
      var i := 0;
      while i < size
        invariant buf == old(buf) && 0 <= i <= size
        invariant fresher[..i] == old(Contents())[..i]
      {
        fresher[i] := buf[i];
        i := i + 1;
      }
      buf := fresher;
    }

    /** Two digits at the scratch cursor. */
    static method PutOctet(scratch: array<char>, p: nat, b: byte)
      requires p + 2 <= scratch.Length
      modifies scratch
      ensures scratch[..p + 2] == old(scratch[..p]) + OctetText(b)
    {
      scratch[p] := H2c(b / 16);
      scratch[p + 1] := H2c(b % 16);
    }

    static method PutOctetAndSpace(scratch: array<char>, p: nat, b: byte)
      requires p + 3 <= scratch.Length
      modifies scratch
      ensures scratch[..p + 3] == old(scratch[..p]) + (OctetText(b) + " ")
    {
      PutOctet(scratch, p, b);
      ghost var held := scratch[..p + 2];
      scratch[p + 2] := ' ';
      assert scratch[..p + 3] == held + " ";
    }

    /** The canonical loop: the scratch buffer is flushed when 50 characters are in. */
    static method DumpCanonical(octets: seq<byte>, scratch: array<char>, level: int) returns (out: string)
      requires scratch.Length == 52
      modifies scratch
      ensures out == XerText(octets, true, level)
    {
      hide Body, Indent, OctetText;
      var p, i := 0, 0;
      out := "";
      BodyOfNone(octets, true, level);
      while i < |octets|
        invariant 0 <= i <= |octets| && p <= 51
        invariant out + scratch[..p] == Body(octets, i, true, level)
      {
        if p >= 50 {
          out := out + scratch[..p];
          p := 0;
        }
        ghost var held := scratch[..p];
        BodyStep(octets, i, true, level);
        PutOctet(scratch, p, octets[i]);
        Appended(out, held, Body(octets, i, true, level), OctetText(octets[i]), scratch[..p + 2]);
        p, i := p + 2, i + 1;
      }
      out := out + scratch[..p];
    }

    /** Before the first octet of a row, what the scratch buffer holds and a new line go out. */
    static method FlushRow(octets: seq<byte>, i: nat, scratch: array<char>, sofar: string, q: nat, level: int)
      returns (out: string, p: nat)
      requires scratch.Length == 52 && q == if i == 0 then 0 else 3 * ((i - 1) % 16 + 1)
      ensures p == 3 * (i % 16)
      ensures out + scratch[..p] == (sofar + scratch[..q]) + if NewLine(octets, i) then Indent(level) else ""
    {
      hide Indent;
      RowColumn(i);
      out, p := sofar, q;
      ghost var held := sofar + scratch[..q];
      if i % 16 == 0 && (i > 0 || |octets| > 16) {
        out := out + scratch[..p] + Indent(level);
        p := 0;
        assert scratch[..0] == [];
        Associate(out, [], []);
      } else {
        Associate(held, [], []);
      }
    }

    /** One round of the indented loop. */
    static method IndentedOctet(octets: seq<byte>, i: nat, scratch: array<char>, sofar: string, q: nat, level: int)
      returns (out: string, p: nat)
      requires scratch.Length == 52 && i < |octets| && q == if i == 0 then 0 else 3 * ((i - 1) % 16 + 1)
      requires sofar + scratch[..q] == Body(octets, i, false, level)
      modifies scratch
      ensures p == 3 * (i % 16 + 1)
      ensures out + scratch[..p] == Body(octets, i + 1, false, level)
    {
      hide Body, Indent, OctetText, NewLine;
      ghost var before, line := sofar + scratch[..q], if NewLine(octets, i) then Indent(level) else "";
      out, p := FlushRow(octets, i, scratch, sofar, q, level);
      ghost var held := scratch[..p];
      PutOctetAndSpace(scratch, p, octets[i]);
      BodyStep(octets, i, false, level);
      Appended(out, held, before + line, OctetText(octets[i]) + " ", scratch[..p + 3]);
      RegroupPairs(before, line, OctetText(octets[i]), " ");
      p := p + 3;
    }

    /** The indented loop: the scratch buffer is flushed before every line. */
    static method DumpIndented(octets: seq<byte>, scratch: array<char>, level: int) returns (out: string)
      requires scratch.Length == 52
      modifies scratch
      ensures out == XerText(octets, false, level)
    {
      hide Body, Indent, OctetText;
      var p, i := 0, 0;
      out := "";
      BodyOfNone(octets, false, level);
      while i < |octets|
        invariant 0 <= i <= |octets|
        invariant p == if i == 0 then 0 else 3 * ((i - 1) % 16 + 1)
        invariant out + scratch[..p] == Body(octets, i, false, level)
      {
        out, p := IndentedOctet(octets, i, scratch, out, p, level);
        i := i + 1;
      }
      if p > 0 {
        p := p - 1;
        TailSpaceRemoved(out, scratch[..p + 1]);
        assert scratch[..p + 1][..p] == scratch[..p];
        out := out + scratch[..p];
        if |octets| > 16 { out := out + Indent(level - 1); }
      }
    }

    /** OCTET_STRING_encode_xer through its 52-character scratch buffer; out is all that the callback consumed. */
    method EncodeXer(canonical: bool, level: int) returns (out: string)
      requires Valid()
      ensures out == XerText(Contents(), canonical, level)
    {
      var scratch := new char[16 * 3 + 4];
      if canonical {
        out := DumpCanonical(Contents(), scratch, level);
      } else {
        out := DumpIndented(Contents(), scratch, level);
      }
    }

    /** One digit: the second of a pair completes an octet. */
    method StoreDigit(b: nat, clv: nat, half: nat, chunkStop: nat, p: nat, d: nibble, ghost ns: seq<nibble>)
      returns (b': nat, clv': nat, half': nat, chunkStop': nat)
      requires buf != null && b < buf.Length && b == size + |ns| / 2 && half == |ns| % 2 && buf[size..b] == Pairs(ns)
      requires Pairs(ns + [d]) == if half == 1 then Pairs(ns) + [ShiftNibble(clv, d) % 256] else Pairs(ns)
      modifies buf
      ensures clv' == ShiftNibble(clv, d) && half' == 1 - half && chunkStop' == if half == 1 then p + 1 else chunkStop
      ensures b' == size + (|ns| + 1) / 2 && buf[size..b'] == Pairs(ns + [d]) && buf[..size] == old(buf[..size])
    {
      hide Pairs, ShiftNibble;
      b', clv', half', chunkStop' := b, ShiftNibble(clv, d), half + 1, chunkStop;
      if half' == 2 {
        ghost var held, before := buf[size..b], buf[..size];
        half' := 0;
        buf[b] := clv' % 256;
        b' := b + 1;
        chunkStop' := p + 1;
        assert buf[size..b'] == held + [clv' % 256];
        assert buf[..size] == before;
      }
    }

    /** The loop over the characters: complete pairs are stored after the contents. */
    method ScanDigits(chunk: string) returns (ok: bool, b: nat, clv: nat, half: nat, chunkStop: nat, ghost ns: seq<nibble>)
      requires buf != null && size + (|chunk| + 1) / 2 < buf.Length
      modifies buf
      ensures buf[..size] == old(buf[..size])
      ensures ok <==> IsHexText(chunk)
      ensures ok ==> Scanned(chunk, ns, clv, half, chunkStop) && |ns| <= |chunk|
      ensures ok ==> b == size + |ns| / 2 && buf[size..b] == Pairs(ns)
    {
      hide Nibbles, AfterPair, Pairs, ShiftNibble, Scanned, IsHexText, IsHex, IsXerSpace;
      ghost var before := buf[..size];
      chunkStop, clv, half, ns := 0, 0, 0, [];
      b := size;
      var p := 0;
      ScanStart(chunk);
      while p < |chunk|
        invariant 0 <= p <= |chunk| && |ns| <= p && half == |ns| % 2
        invariant IsHexText(chunk[..p]) && Scanned(chunk[..p], ns, clv, half, chunkStop)
        invariant b == size + |ns| / 2 && buf[..size] == before && buf[size..b] == Pairs(ns)
      {
        var ch := chunk[p];
        assert chunk[..p + 1] == chunk[..p] + [ch];
        HexTextUpTo(chunk, p);
        if !IsHex(ch) && !IsXerSpace(ch) {
          buf[b] := 0;
          return false, b, clv, half, chunkStop, ns;
        }
        ScanStep(chunk[..p], ns, clv, half, chunkStop, ch);
        if IsHex(ch) {
          b, clv, half, chunkStop := StoreDigit(b, clv, half, chunkStop, p, HexValue(ch), ns);
          ns := ns + [HexValue(ch)];
        }
        p := p + 1;
      }
      assert chunk[..p] == chunk;
      ok := true;
    }

    /** OCTET_STRING__convert_hexadecimal. The write index never passes the size reserved from the chunk size. */
    method ConvertHexadecimal(chunk: string, haveMore: bool) returns (r: int)
      requires Valid()
      modifies this
      ensures Valid() && buf != null && fresh(buf)
      ensures r == if IsHexText(chunk) then Taken(chunk, haveMore) else -1
      ensures Contents() == old(Contents()) + if IsHexText(chunk) then Octets(Nibbles(chunk), haveMore) else []
      ensures size <= old(size) + (|chunk| + 1) / 2
    {
      hide Nibbles, AfterPair, Pairs, IsHexText;
      ghost var before := Contents();
      Realloc(size + (|chunk| + 1) / 2 + 1);
      var ok, b, clv, half, chunkStop, ns := ScanDigits(chunk);
      if !ok {
        assert before + [] == before;
        return -1;
      }
      if half == 1 {
        if haveMore {
          LastNibble(clv);
          buf[b] := clv * 16 % 256;
          b := b + 1;
          chunkStop := |chunk|;
        }
      } else {
        chunkStop := |chunk|;
      }
      assert buf[size..b] == Octets(ns, haveMore);
      assert buf[..b] == before + buf[size..b];
      size := b;
      buf[size] := 0;
      r := chunkStop;
    }
  }

  lemma BodyStep(octets: seq<byte>, i: nat, canonical: bool, level: int)
    requires i < |octets|
    ensures Body(octets, i + 1, canonical, level)
         == Body(octets, i, canonical, level)
            + (if canonical then OctetText(octets[i])
               else (if NewLine(octets, i) then Indent(level) else "") + OctetText(octets[i]) + " ")
  {
  }

  lemma LastNibble(clv: nat)
    ensures clv * 16 % 256 == clv % 16 * 16
  {
  }

  /** clv = (clv << 4) + d on a 32-bit unsigned int: it keeps growing, only its low octet is stored. */
  function ShiftNibble(clv: nat, d: nibble): nat { (clv * 16 + d) % 0x1_0000_0000 }

  lemma ShiftNibbleLow(clv: nat, d: nibble)
    ensures ShiftNibble(clv, d) % 256 == clv % 16 * 16 + d
    ensures ShiftNibble(clv, d) % 16 == d
  {
    var x := clv * 16 + d;
    var q, y := x / 0x1_0000_0000, x % 0x1_0000_0000;
    assert x == q * 0x1_0000_0000 + y;
    var low, k := clv % 16 * 16 + d, clv / 16 - q * 0x100_0000;
    assert y == 256 * k + low && k >= 0;
    DivUnique(y, 256, k, low);
    DivUnique(y, 16, 16 * k + clv % 16, d);
  }

  /** The scanner's variables after a prefix with the digits ns. */
  predicate Scanned(s: string, ns: seq<nibble>, clv: nat, half: nat, chunkStop: nat)
  {
    && ns == Nibbles(s) && half == |ns| % 2 && chunkStop == AfterPair(s)
    && (half == 1 ==> clv % 16 == ns[|ns| - 1])
  }

  lemma ScanStart(chunk: string)
    ensures Scanned(chunk[..0], [], 0, 0, 0) && IsHexText(chunk[..0]) && Pairs([]) == []
  {
  }

  lemma {:induction false} PairsSnoc(ns: seq<nibble>, d: nibble)
    ensures Pairs(ns + [d]) == if |ns| % 2 == 1 then Pairs(ns) + [Octet(ns[|ns| - 1], d)] else Pairs(ns)
    decreases |ns|
  {
    hide Pairs;
    if |ns| == 0 {
      assert ns + [d] == [d];
      PairsOfOne(d);
    } else if |ns| == 1 {
      assert ns + [d] == [ns[0], d] && ns == [ns[0]];
      PairsOfOne(ns[0]);
      PairsOfTwo(ns[0], d);
    } else {
      assert (ns + [d])[2..] == ns[2..] + [d];
      PairsSnoc(ns[2..], d);
      PairsStep(ns);
      PairsStep(ns + [d]);
    }
  }

  lemma PairsOfTwo(c: nibble, d: nibble)
    ensures Pairs([c, d]) == [Octet(c, d)]
  {
    hide Pairs;
    var two: seq<nibble> := [c, d];
    PairsStep(two);
    PairsOfOne(c);
    assert two[2..] == [];
  }

  lemma PairsOfOne(d: nibble)
    ensures Pairs([]) == [] && Pairs([d]) == []
  {
  }

  lemma ScanStep(s: string, ns: seq<nibble>, clv: nat, half: nat, chunkStop: nat, c: char)
    requires Scanned(s, ns, clv, half, chunkStop) && (IsHex(c) || IsXerSpace(c))
    ensures !IsHex(c) ==> Scanned(s + [c], ns, clv, half, chunkStop)
    ensures IsHex(c) ==>
              var d := HexValue(c);
              Scanned(s + [c], ns + [d], ShiftNibble(clv, d), 1 - half, if half == 1 then |s| + 1 else chunkStop)
    ensures IsHex(c) ==> Pairs(ns + [HexValue(c)]) == if half == 1 then Pairs(ns) + [ShiftNibble(clv, HexValue(c)) % 256] else Pairs(ns)
  {
    hide Nibbles, AfterPair, Pairs, ShiftNibble;
    var t := s + [c];
    assert t[..|t| - 1] == s;
    NibblesSnoc(t);
    AfterPairSnoc(t);
    assert Nibbles(s) + [] == Nibbles(s);
    if IsHex(c) {
      ShiftNibbleLow(clv, HexValue(c));
      PairsSnoc(ns, HexValue(c));
      assert half == 1 ==> Octet(ns[|ns| - 1], HexValue(c)) == ShiftNibble(clv, HexValue(c)) % 256;
    }
  }

  lemma HexTextUpTo(chunk: string, p: nat)
    requires p < |chunk| && IsHexText(chunk[..p])
    ensures if IsHex(chunk[p]) || IsXerSpace(chunk[p]) then IsHexText(chunk[..p + 1]) else !IsHexText(chunk)
  {
  }

  lemma RowColumn(i: nat)
    ensures i % 16 != 0 ==> (i - 1) % 16 + 1 == i % 16
  {
  }

  lemma BodyOfNone(octets: seq<byte>, canonical: bool, level: int)
    ensures Body(octets, 0, canonical, level) == ""
  {
  }

  lemma Appended(out: string, held: string, before: string, piece: string, held': string)
    requires out + held == before && held' == held + piece
    ensures out + held' == before + piece
  {
    Associate(out, held, piece);
  }

  lemma TailSpaceRemoved(out: string, held: string)
    requires held != ""
    ensures (out + held)[..|out + held| - 1] == out + held[..|held| - 1]
  {
  }
}
