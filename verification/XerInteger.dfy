/** INTEGER in XML: the text INTEGER__dump prints and the automaton INTEGER__xer_body_decode reads it with. */
module XerInteger {
  import opened Text
  import opened Bytes
  import opened IntegerCodec
  import opened Strtox
  import Enumerated

  // ----- characters -----

  predicate IsSpace(c: char) { c == '\t' || c == '\n' || c == '\r' || c == ' ' }

  predicate AllSpace(s: string) { forall i :: 0 <= i < |s| ==> IsSpace(s[i]) }

  lemma SpaceCodes(c: char)
    ensures IsSpace(c) <==> c as int in {0x09, 0x0a, 0x0d, 0x20}
  {
  }

  // ----- the language of INTEGER bodies -----

  datatype Outcome = Consumed(contents: seq<byte>) | NotBody | Broken | Limit

  function SpaceEnd(text: string, i: nat): (r: nat)
    requires i <= |text|
    ensures i <= r <= |text|
    decreases |text| - i
  {
    if i < |text| && IsSpace(text[i]) then SpaceEnd(text, i + 1) else i
  }

  function DigitsEnd(text: string, i: nat): (r: nat)
    requires i <= |text|
    ensures i <= r <= |text|
    decreases |text| - i
  {
    if i < |text| && IsDigit(text[i]) then DigitsEnd(text, i + 1) else i
  }

  /** Pairs of hexadecimal digits separated by single colons: the octets and where they end. */
  function HexPairs(text: string, i: nat): (r: Option<(seq<byte>, nat)>)
    ensures r.Some? ==> i < r.value.1 <= |text|
    decreases |text| - i
  {
    if i + 1 < |text| && IsHex(text[i]) && IsHex(text[i + 1]) then
      var b := HexValue(text[i]) * 16 + HexValue(text[i + 1]);
      if i + 2 < |text| && text[i + 2] == ':' then Prepend([b], HexPairs(text, i + 3)) else Some(([b], i + 2))
    else None
  }

  function Prepend(out: seq<byte>, r: Option<(seq<byte>, nat)>): Option<(seq<byte>, nat)>
  {
    if r.Some? then Some((out + r.value.0, r.value.1)) else None
  }

  /** First position that is not leading white space. */
  function Start(text: string): nat { SpaceEnd(text, 0) }

  function DigitsStart(text: string): (d: nat)
    ensures Start(text) <= d <= |text|
  {
    var a := Start(text);
    if a < |text| && (text[a] == '-' || text[a] == '+') then a + 1 else a
  }

  /** White space, an optional sign, at least one digit, white space. */
  predicate IsDecimalBody(text: string)
  {
    var e := DigitsEnd(text, DigitsStart(text));
    e > DigitsStart(text) && SpaceEnd(text, e) == |text|
  }

  function DecimalPart(text: string): string
  {
    text[Start(text)..DigitsEnd(text, DigitsStart(text))]
  }

  function DecimalOutcome(s: string): Outcome
  {
    match ImaxSpec(s)
    case OK(_, v) => if FitsInt64(v) then Consumed(Encode64(v)) else Limit
    case ERROR_RANGE(_) => Limit
    case _ => Broken
  }

  function HexOutcome(text: string): Outcome
  {
    match HexPairs(text, Start(text))
    case Some((octets, end)) => if SpaceEnd(text, end) == |text| then Consumed(octets) else Broken
    case None => Broken
  }

  /** What a chunk of text means, decided without an automaton. tagged is the value of the
      enumeration identifier the chunk holds, when the type has one. */
  function Meaning(text: string, tagged: Option<int64>): Outcome
  {
    var a := Start(text);
    if a == |text| then NotBody
    else if text[a] == '<' then (if tagged.Some? then Consumed(Encode64(tagged.value)) else Broken)
    else if IsDecimalBody(text) then DecimalOutcome(DecimalPart(text))
    else HexOutcome(text)
  }

  // ----- the same language, text by text -----

  /** White space, an optional sign, digits, white space. */
  predicate IsSigned(text: string, lead: string, sign: string, digits: string, trail: string)
  {
    && text == lead + sign + digits + trail && AllSpace(lead) && AllSpace(trail)
    && (sign == "" || sign == "+" || sign == "-") && digits != "" && AllDigits(digits)
  }

  function SignedValue(sign: string, digits: string): int
    requires AllDigits(digits)
  {
    var n: int := Decimal(digits);
    if sign == "-" then -n else n
  }

  ghost predicate SomeSigned(text: string)
  {
    exists lead, sign, digits, trail :: IsSigned(text, lead, sign, digits, trail)
  }

  /** Two hexadecimal digits for each octet, and a colon between two pairs. */
  predicate IsPairs(hex: string, octets: seq<byte>)
  {
    octets != [] && |hex| == 3 * |octets| - 1 && forall k :: 0 <= k < |octets| ==> PairAt(hex, octets, k)
  }

  predicate PairAt(hex: string, octets: seq<byte>, k: nat)
    requires k < |octets| && |hex| == 3 * |octets| - 1
  {
    var at := 3 * k;
    && IsHex(hex[at]) && IsHex(hex[at + 1]) && octets[k] == HexValue(hex[at]) * 16 + HexValue(hex[at + 1])
    && (k < |octets| - 1 ==> hex[at + 2] == ':')
  }

  predicate IsHexBody(text: string, lead: string, hex: string, trail: string, octets: seq<byte>)
  {
    text == lead + hex + trail && AllSpace(lead) && AllSpace(trail) && IsPairs(hex, octets)
  }

  ghost predicate SomeHexBody(text: string)
  {
    exists lead, hex, trail, octets :: IsHexBody(text, lead, hex, trail, octets)
  }

  predicate IsTag(text: string, lead: string, rest: string) { text == lead + "<" + rest && AllSpace(lead) }

  ghost predicate SomeTag(text: string) { exists lead, rest :: IsTag(text, lead, rest) }

  /** Contents are the shortest ones of a number. */
  predicate Holds(contents: seq<byte>, number: int) { Shortest(contents) && Signed(contents) == number }

  /** What has to be answered: white space alone is no body; a tag is the value looked up for it, or broken; a decimal
      is its number, or over the limit of 64 bits; pairs that are no decimal are their octets; all else is broken. */
  ghost predicate Answers(text: string, tagged: Option<int64>, r: Xpbd, contents: seq<byte>)
  {
    && (AllSpace(text) <==> r == NOT_BODY_IGNORE)
    && (forall lead, rest :: IsTag(text, lead, rest) ==>
          if tagged.Some? then r == BODY_CONSUMED && Holds(contents, tagged.value) else r == BROKEN_ENCODING)
    && (forall lead, sign, digits, trail :: IsSigned(text, lead, sign, digits, trail) ==>
          if FitsInt64(SignedValue(sign, digits)) then r == BODY_CONSUMED && Holds(contents, SignedValue(sign, digits))
          else r == DECODER_LIMIT)
    && (forall lead, hex, trail, octets :: IsHexBody(text, lead, hex, trail, octets) && !SomeSigned(text) ==>
          r == BODY_CONSUMED && contents == octets)
    && (!AllSpace(text) && !SomeTag(text) && !SomeSigned(text) && !SomeHexBody(text) ==> r == BROKEN_ENCODING)
  }

  lemma {:induction false} SpaceBetween(text: string, i: nat)
    requires i <= |text|
    ensures AllSpace(text[i..SpaceEnd(text, i)])
    ensures SpaceEnd(text, i) < |text| ==> !IsSpace(text[SpaceEnd(text, i)])
    decreases |text| - i
  {
    var e := SpaceEnd(text, i);
    if i < |text| && IsSpace(text[i]) {
      SpaceBetween(text, i + 1);
      assert text[i..e] == [text[i]] + text[i + 1..e];
    }
  }

  lemma {:induction false} SpaceEndAt(text: string, i: nat, j: nat)
    requires i <= j <= |text| && (forall k :: i <= k < j ==> IsSpace(text[k]))
    requires j < |text| ==> !IsSpace(text[j])
    ensures SpaceEnd(text, i) == j
    decreases j - i
  {
    if i < j { SpaceEndAt(text, i + 1, j); }
  }

  lemma {:induction false} DigitsEndAt(text: string, i: nat, j: nat)
    requires i <= j <= |text| && (forall k :: i <= k < j ==> IsDigit(text[k]))
    requires j < |text| ==> !IsDigit(text[j])
    ensures DigitsEnd(text, i) == j
    decreases j - i
  {
    if i < j { DigitsEndAt(text, i + 1, j); }
  }

  lemma AllSpaceMeans(text: string)
    ensures AllSpace(text) <==> Start(text) == |text|
  {
    SpaceBetween(text, 0);
    if AllSpace(text) { SpaceEndAt(text, 0, |text|); }
    assert text[0..|text|] == text;
  }

  /** A sign and digits between white space are a decimal body. */
  lemma SignedDigitsBody(text: string, a: nat, d: nat, e: nat)
    requires a <= d < e <= |text|
    requires d == if text[a] == '-' || text[a] == '+' then a + 1 else a
    requires (forall k :: 0 <= k < a ==> IsSpace(text[k])) && !IsSpace(text[a])
    requires forall k :: d <= k < e ==> IsDigit(text[k])
    requires forall k :: e <= k < |text| ==> IsSpace(text[k])
    ensures Start(text) == a && IsDecimalBody(text) && DecimalPart(text) == text[a..e]
  {
    SpaceEndAt(text, 0, a);
    DigitsEndAt(text, d, e);
    SpaceEndAt(text, e, |text|);
  }

  lemma SignedIsDecimalBody(text: string, lead: string, sign: string, digits: string, trail: string)
    requires IsSigned(text, lead, sign, digits, trail)
    ensures Start(text) == |lead| < |text| && text[|lead|] != '<' && IsDecimalBody(text) && DecimalPart(text) == sign + digits
  {
    var a, d, e := |lead|, |lead| + |sign|, |lead| + |sign| + |digits|;
    assert forall k :: 0 <= k < a ==> text[k] == lead[k];
    assert sign != "" ==> text[a] == sign[0];
    assert forall k :: d <= k < e ==> text[k] == digits[k - d];
    assert forall k :: e <= k < |text| ==> text[k] == trail[k - e];
    assert IsDigit(text[d]);
    SignedDigitsBody(text, a, d, e);
    assert text[a..e] == sign + digits;
  }

  lemma DecimalBodyIsSigned(text: string)
    requires IsDecimalBody(text)
    ensures SomeSigned(text)
  {
    var a, d := Start(text), DigitsStart(text);
    var e := DigitsEnd(text, d);
    SpaceBetween(text, 0);
    DigitsBetween(text, d, e);
    SpaceBetween(text, e);
    var lead, sign, digits, trail := text[0..a], text[a..d], text[d..e], text[e..|text|];
    assert sign == "" || sign == "+" || sign == "-";
    assert AllDigits(digits);
    hide SpaceEnd, DigitsEnd, IsDecimalBody, AllDigits;
    CutTwice(text, a, d, e);
    assert IsSigned(text, lead, sign, digits, trail);
  }

  lemma CutTwice(text: string, a: nat, d: nat, e: nat)
    requires a <= d <= e <= |text|
    ensures text == text[0..a] + text[a..d] + text[d..e] + text[e..|text|]
  {
  }

  /** strtoimax on a sign and digits alone. */
  lemma ImaxOfDigits(sign: string, digits: string)
    requires (sign == "" || sign == "+" || sign == "-") && digits != "" && AllDigits(digits)
    ensures var s, v := sign + digits, SignedValue(sign, digits);
            if FitsInt64(v) then ImaxSpec(s) == OK(|s|, v) else ImaxSpec(s).ERROR_RANGE?
  {
    var s, start, limit := sign + digits, |sign|, if sign == "-" then TWO_63 else TWO_63 - 1;
    assert s[start..] == digits;
    assert sign == "" ==> s[0] == digits[0] && IsDigit(s[0]);
    hide Scan, Decimal;
    ScanOfDigits(s, start, limit);
  }

  lemma ScanOfDigits(s: string, start: nat, limit: nat)
    requires start <= |s| && AllDigits(s[start..])
    ensures var n := Decimal(s[start..]);
            if n <= limit then Scan(s, start, 0, limit) == OK(|s|, n) else Scan(s, start, 0, limit).ERROR_RANGE?
  {
    hide Scan, Decimal;
    NoDigits(s, start);
    ScanExact(s, start, start, limit);
    if Decimal(s[start..]) <= limit {
      ExactIsScan(s, start, limit, OK(|s|, Decimal(s[start..])));
    } else {
      assert forall k :: start <= k < |s| ==> s[k] == s[start..][k - start];
    }
  }

  lemma SignedMeaning(text: string, lead: string, sign: string, digits: string, trail: string, tagged: Option<int64>)
    requires IsSigned(text, lead, sign, digits, trail)
    ensures var v := SignedValue(sign, digits);
            Meaning(text, tagged) == if FitsInt64(v) then Consumed(Encode64(v)) else Limit
  {
    hide IsDecimalBody, DecimalPart, HexOutcome, Decimal, ImaxSpec;
    SignedIsDecimalBody(text, lead, sign, digits, trail);
    ImaxOfDigits(sign, digits);
  }

  /** Pairs are read pair by pair. */
  lemma {:induction false} PairsRead(text: string, i: nat, octets: seq<byte>, end: nat)
    requires i <= end <= |text| && IsPairs(text[i..end], octets) && (end < |text| ==> text[end] != ':')
    ensures HexPairs(text, i) == Some((octets, end))
    decreases |octets|
  {
    var hex, b := text[i..end], octets[0];
    assert PairAt(hex, octets, 0);
    assert hex[0] == text[i] && hex[1] == text[i + 1];
    if |octets| > 1 {
      var rest := text[i + 3..end];
      assert hex[2] == text[i + 2] == ':';
      PairsTail(hex, octets);
      assert hex[3..] == rest;
      PairsRead(text, i + 3, octets[1..], end);
      assert [b] + octets[1..] == octets;
    } else {
      assert octets == [b];
    }
  }

  lemma PairsTail(hex: string, octets: seq<byte>)
    requires IsPairs(hex, octets) && |octets| > 1
    ensures IsPairs(hex[3..], octets[1..])
  {
    var rest, tail := hex[3..], octets[1..];
    forall k | 0 <= k < |tail| ensures PairAt(rest, tail, k) {
      assert PairAt(hex, octets, k + 1);
      var at := 3 * k;
      assert rest[at] == hex[at + 3] && rest[at + 1] == hex[at + 4] && tail[k] == octets[k + 1];
      assert k < |tail| - 1 ==> rest[at + 2] == hex[at + 5];
    }
  }

  lemma {:induction false} ReadArePairs(text: string, i: nat)
    requires HexPairs(text, i).Some?
    ensures var r := HexPairs(text, i).value; i < r.1 <= |text| && IsPairs(text[i..r.1], r.0)
    decreases |text| - i
  {
    var r := HexPairs(text, i).value;
    var hex := text[i..r.1];
    if i + 2 < |text| && text[i + 2] == ':' {
      ReadArePairs(text, i + 3);
      var rest := HexPairs(text, i + 3).value;
      assert r.0[1..] == rest.0;
      assert hex[..3] + text[i + 3..r.1] == hex;
      PairsCons(hex, r.0, text[i + 3..r.1]);
    }
  }

  lemma PairsCons(hex: string, octets: seq<byte>, rest: string)
    requires octets != [] && |hex| >= 3 && hex == hex[..3] + rest && IsPairs(rest, octets[1..])
    requires IsHex(hex[0]) && IsHex(hex[1]) && hex[2] == ':' && octets[0] == HexValue(hex[0]) * 16 + HexValue(hex[1])
    ensures IsPairs(hex, octets)
  {
    var tail := octets[1..];
    forall k | 0 <= k < |octets| ensures PairAt(hex, octets, k) {
      if k > 0 {
        assert PairAt(rest, tail, k - 1);
        var at := 3 * (k - 1);
        assert hex[at + 3] == rest[at] && hex[at + 4] == rest[at + 1] && tail[k - 1] == octets[k];
        assert k < |octets| - 1 ==> hex[at + 5] == rest[at + 2];
      }
    }
  }

  lemma HexBodyMeaning(text: string, lead: string, hex: string, trail: string, octets: seq<byte>, tagged: Option<int64>)
    requires IsHexBody(text, lead, hex, trail, octets) && !SomeSigned(text)
    ensures Meaning(text, tagged) == Consumed(octets)
  {
    var a, e := |lead|, |lead| + |hex|;
    assert text[a..e] == hex && PairAt(hex, octets, 0) && text[a] == hex[0];
    assert forall k :: 0 <= k < a ==> text[k] == lead[k];
    assert forall k :: e <= k < |text| ==> text[k] == trail[k - e];
    SpaceEndAt(text, 0, a);
    SpaceEndAt(text, e, |text|);
    PairsRead(text, a, octets, e);
    if IsDecimalBody(text) { DecimalBodyIsSigned(text); }
  }

  lemma HexOutcomeIsBody(text: string)
    requires HexOutcome(text).Consumed?
    ensures SomeHexBody(text)
  {
    var a := Start(text);
    ReadArePairs(text, a);
    var octets, end := HexPairs(text, a).value.0, HexPairs(text, a).value.1;
    SpaceBetween(text, 0);
    SpaceBetween(text, end);
    hide SpaceEnd, HexPairs, IsPairs;
    assert text[end..|text|] == text[end..] && text[0..a] == text[..a];
    Cut(text, a, end);
    ItIsSome(text, text[..a], text[a..end], text[end..], octets);
  }

  lemma ItIsSome(text: string, lead: string, hex: string, trail: string, octets: seq<byte>)
    requires text == lead + hex + trail && AllSpace(lead) && AllSpace(trail) && IsPairs(hex, octets)
    ensures SomeHexBody(text)
  {
    hide IsPairs, AllSpace;
    assert IsHexBody(text, lead, hex, trail, octets);
  }

  lemma Cut(text: string, a: nat, e: nat)
    requires a <= e <= |text|
    ensures text == text[..a] + text[a..e] + text[e..]
  {
  }

  lemma TagMeans(text: string)
    ensures SomeTag(text) <==> Start(text) < |text| && text[Start(text)] == '<'
  {
    if lead, rest :| IsTag(text, lead, rest) {
      assert text[|lead|] == '<' && forall k :: 0 <= k < |lead| ==> text[k] == lead[k];
      SpaceEndAt(text, 0, |lead|);
    }
    var a := Start(text);
    if a < |text| && text[a] == '<' {
      SpaceBetween(text, 0);
      assert text[0..a] == text[..a] && text == text[..a] + "<" + text[a + 1..];
      assert IsTag(text, text[..a], text[a + 1..]);
    }
  }

  /** The meaning is the answer. */
  lemma MeaningAnswers(text: string, tagged: Option<int64>, contents: seq<byte>)
    requires Meaning(text, tagged).Consumed? ==> contents == Meaning(text, tagged).contents
    ensures Answers(text, tagged, Code(Meaning(text, tagged)), contents)
  {
    hide IsSigned, IsHexBody, IsTag, Start, IsDecimalBody, DecimalOutcome, HexOutcome, SomeSigned, SomeHexBody, SomeTag;
    AllSpaceMeans(text);
    TagMeans(text);
    TagAnswers(text, tagged, contents);
    SignedAnswers(text, tagged, contents);
    HexAnswers(text, tagged, contents);
    OthersAnswer(text, tagged);
  }

  lemma TagAnswers(text: string, tagged: Option<int64>, contents: seq<byte>)
    requires Meaning(text, tagged).Consumed? ==> contents == Meaning(text, tagged).contents
    ensures SomeTag(text) ==>
              if tagged.Some? then Meaning(text, tagged).Consumed? && Holds(contents, tagged.value) else Meaning(text, tagged) == Broken
    ensures forall lead, rest :: IsTag(text, lead, rest) ==> SomeTag(text)
  {
    TagMeans(text);
    if tagged.Some? { Encode64Correct(tagged.value); }
  }

  lemma SignedAnswers(text: string, tagged: Option<int64>, contents: seq<byte>)
    requires Meaning(text, tagged).Consumed? ==> contents == Meaning(text, tagged).contents
    ensures forall lead, sign, digits, trail :: IsSigned(text, lead, sign, digits, trail) ==>
              if FitsInt64(SignedValue(sign, digits))
              then Meaning(text, tagged).Consumed? && Holds(contents, SignedValue(sign, digits))
              else Meaning(text, tagged) == Limit
  {
    hide Meaning;
    forall lead, sign, digits, trail | IsSigned(text, lead, sign, digits, trail)
      ensures if FitsInt64(SignedValue(sign, digits))
              then Meaning(text, tagged).Consumed? && Holds(contents, SignedValue(sign, digits))
              else Meaning(text, tagged) == Limit
    {
      SignedMeaning(text, lead, sign, digits, trail, tagged);
      if FitsInt64(SignedValue(sign, digits)) { Encode64Correct(SignedValue(sign, digits)); }
    }
  }

  lemma HexAnswers(text: string, tagged: Option<int64>, contents: seq<byte>)
    requires Meaning(text, tagged).Consumed? ==> contents == Meaning(text, tagged).contents
    ensures forall lead, hex, trail, octets :: IsHexBody(text, lead, hex, trail, octets) && !SomeSigned(text) ==>
              Meaning(text, tagged).Consumed? && contents == octets
  {
    hide Meaning;
    forall lead, hex, trail, octets | IsHexBody(text, lead, hex, trail, octets) && !SomeSigned(text)
      ensures Meaning(text, tagged).Consumed? && contents == octets
    {
      HexBodyMeaning(text, lead, hex, trail, octets, tagged);
    }
  }

  lemma OthersAnswer(text: string, tagged: Option<int64>)
    ensures Meaning(text, tagged) == NotBody <==> AllSpace(text)
    ensures !AllSpace(text) && !SomeTag(text) && !SomeSigned(text) && !SomeHexBody(text) ==> Meaning(text, tagged) == Broken
  {
    AllSpaceMeans(text);
    TagMeans(text);
    if IsDecimalBody(text) { DecimalBodyIsSigned(text); }
    if HexOutcome(text).Consumed? { HexOutcomeIsBody(text); }
  }

  // ----- the automaton -----

  datatype State =
    | LEADSPACE | SKIPSPHEX | WAITDIGITS | DIGITS | DIGITS_TRAILSPACE
    | HEXDIGIT1 | HEXDIGIT2 | HEXDIGITS_TRAILSPACE | HEXCOLON | END_ENUM | UNEXPECTED

  /** The locals of INTEGER__xer_body_decode. */
  datatype Machine = Machine(state: State, lp: nat, hex: int, decStart: nat, decEnd: nat)

  datatype Next = Continue(m: Machine, emit: Option<int>) | Return | Break(state: State)

  /** One pass through the switch over the current character. */
  function Step(text: string, m: Machine, tagged: Option<int64>): Next
    requires m.lp < |text|
  {
    var c := text[m.lp];
    var on := m.(lp := m.lp + 1);
    if IsSpace(c) then
      match m.state
      case LEADSPACE | DIGITS_TRAILSPACE | HEXDIGITS_TRAILSPACE | SKIPSPHEX => Continue(on, None)
      case DIGITS => Continue(on.(decEnd := m.lp, state := DIGITS_TRAILSPACE), None)
      case HEXCOLON => Continue(on.(state := HEXDIGITS_TRAILSPACE), None)
      case _ => Break(UNEXPECTED)
    else if c == '-' || c == '+' then
      if m.state == LEADSPACE then Continue(on.(decStart := m.lp, state := WAITDIGITS), None) else Break(UNEXPECTED)
    else if IsDigit(c) then
      match m.state
      case DIGITS => Continue(on, None)
      case SKIPSPHEX | HEXDIGIT1 => Continue(on.(hex := HexValue(c) * 16, state := HEXDIGIT2), None)
      case HEXDIGIT2 => Continue(on.(hex := m.hex + HexValue(c), state := HEXCOLON), Some(m.hex + HexValue(c)))
      case HEXCOLON => Return
      case LEADSPACE => Continue(on.(decStart := m.lp, state := DIGITS), None)
      case WAITDIGITS => Continue(on.(state := DIGITS), None)
      case _ => Break(UNEXPECTED)
    else if c == '<' then
      if m.state == LEADSPACE && tagged.Some? then Break(END_ENUM) else Return
    else if c == ':' then
      match m.state
      case HEXCOLON => Continue(on.(state := HEXDIGIT1), None)
      case DIGITS => Continue(m.(lp := 0, state := SKIPSPHEX), None)
      case _ => Break(UNEXPECTED)
    else if IsHexLetter(c) then
      match m.state
      case SKIPSPHEX | LEADSPACE | HEXDIGIT1 => Continue(on.(hex := HexValue(c) * 16, state := HEXDIGIT2), None)
      case HEXDIGIT2 => Continue(on.(hex := m.hex + HexValue(c), state := HEXCOLON), Some(m.hex + HexValue(c)))
      case DIGITS => Continue(m.(lp := 0, state := SKIPSPHEX), None)
      case _ => Break(UNEXPECTED)
    else Break(UNEXPECTED)
  }

  predicate BeforeRewind(state: State)
  {
    state == LEADSPACE || state == WAITDIGITS || state == DIGITS || state == DIGITS_TRAILSPACE
  }

  /** The hexadecimal reading is still to be decided, and the decimal one and the tag are out. */
  predicate OnlyHex(text: string)
  {
    Start(text) < |text| && text[Start(text)] != '<' && !IsDecimalBody(text)
  }

  /** What the text read so far says about the meaning of the whole chunk. */
  predicate Inv(text: string, m: Machine, out: seq<byte>)
  {
    && m.lp <= |text|
    && (BeforeRewind(m.state) || m.state == SKIPSPHEX ==> out == [])
    && match m.state
       case LEADSPACE => SpaceEnd(text, m.lp) == Start(text)
       case WAITDIGITS =>
         m.decStart == Start(text) < |text| && text[Start(text)] != '<' && m.lp == DigitsStart(text) == Start(text) + 1
       case DIGITS =>
         && m.decStart == Start(text) < |text| && text[Start(text)] != '<' && DigitsStart(text) < m.lp
         && DigitsEnd(text, m.lp) == DigitsEnd(text, DigitsStart(text))
       case DIGITS_TRAILSPACE =>
         && m.decStart == Start(text) < |text| && text[Start(text)] != '<' && DigitsStart(text) < m.decEnd < m.lp && IsSpace(text[m.decEnd])
         && m.decEnd == DigitsEnd(text, DigitsStart(text))
         && SpaceEnd(text, m.lp) == SpaceEnd(text, m.decEnd)
       case SKIPSPHEX => SpaceEnd(text, m.lp) == Start(text) && OnlyHex(text)
       case HEXDIGIT1 =>
         OnlyHex(text) && 3 * |out| <= m.lp && HexPairs(text, Start(text)) == Prepend(out, HexPairs(text, m.lp))
       case HEXDIGIT2 =>
         && OnlyHex(text) && 3 * |out| + 1 <= m.lp && IsHex(text[m.lp - 1]) && m.hex == HexValue(text[m.lp - 1]) * 16
         && HexPairs(text, Start(text)) == Prepend(out, HexPairs(text, m.lp - 1))
       case HEXCOLON =>
         && OnlyHex(text) && out != [] && 3 * |out| - 1 <= m.lp && m.lp >= 2
         && IsHex(text[m.lp - 2]) && IsHex(text[m.lp - 1])
         && out[|out| - 1] == HexValue(text[m.lp - 2]) * 16 + HexValue(text[m.lp - 1])
         && HexPairs(text, Start(text)) == Prepend(out[..|out| - 1], HexPairs(text, m.lp - 2))
       case HEXDIGITS_TRAILSPACE =>
         && OnlyHex(text) && 3 * |out| - 1 <= m.lp
         && HexPairs(text, Start(text)).Some? && HexPairs(text, Start(text)).value.0 == out
         && SpaceEnd(text, HexPairs(text, Start(text)).value.1) == SpaceEnd(text, m.lp)
       case END_ENUM => false
       case UNEXPECTED => false
  }

  /** What one step has to achieve. */
  predicate Sound(text: string, m: Machine, out: seq<byte>, tagged: Option<int64>)
    requires m.lp < |text|
  {
    SoundNext(text, m, out, tagged, Step(text, m, tagged))
  }

  predicate SoundNext(text: string, m: Machine, out: seq<byte>, tagged: Option<int64>, next: Next)
  {
    match next
    case Continue(m', emit) =>
      && (emit.Some? ==> 0 <= emit.value < 256)
      && Inv(text, m', if emit.Some? then out + [emit.value] else out)
      && (BeforeRewind(m'.state) ==> BeforeRewind(m.state) && m'.lp > m.lp)
      && (!BeforeRewind(m.state) ==> m'.lp > m.lp)
    case Return => Meaning(text, tagged) == Broken
    case Break(END_ENUM) => tagged.Some? && Meaning(text, tagged) == Consumed(Encode64(tagged.value))
    case Break(UNEXPECTED) => Meaning(text, tagged) == Broken
    case Break(_) => false
  }

  lemma PrependNothing(r: Option<(seq<byte>, nat)>)
    ensures Prepend([], r) == r
  {
    if r.Some? { assert [] + r.value.0 == r.value.0; }
  }

  lemma StepFromLeadSpace(text: string, m: Machine, out: seq<byte>, tagged: Option<int64>)
    requires m.lp < |text| && m.state == LEADSPACE && Inv(text, m, out)
    ensures Sound(text, m, out, tagged)
  {
    if !IsSpace(text[m.lp]) {
      assert Start(text) == m.lp;
      PrependNothing(HexPairs(text, m.lp));
    }
  }

  lemma StepFromWaitDigits(text: string, m: Machine, out: seq<byte>, tagged: Option<int64>)
    requires m.lp < |text| && m.state == WAITDIGITS && Inv(text, m, out)
    ensures Sound(text, m, out, tagged)
  {
    if !IsDigit(text[m.lp]) {
      assert !IsDecimalBody(text);
      assert HexPairs(text, Start(text)) == None;
    }
  }

  lemma {:induction false} DigitsBetween(text: string, i: nat, p: nat)
    requires i <= |text| && p == DigitsEnd(text, i)
    ensures forall k :: i <= k < p ==> IsDigit(text[k])
    decreases |text| - i
  {
    if i < |text| && IsDigit(text[i]) { DigitsBetween(text, i + 1, p); }
  }

  /** Decimal digits that end neither the body nor a hexadecimal pair. */
  lemma DigitsThenOther(text: string, p: nat)
    requires Start(text) < p < |text| && p == DigitsEnd(text, DigitsStart(text))
    requires SpaceEnd(text, p) < |text|
    requires !IsHex(text[p]) && text[p] != ':'
    ensures HexOutcome(text) == Broken
  {
    var a := Start(text);
    DigitsBetween(text, DigitsStart(text), p);
    if HexPairs(text, a).Some? {
      assert DigitsStart(text) == a;
      if p >= a + 3 {
        assert IsDigit(text[a + 2]);
        assert SpaceEnd(text, a + 2) == a + 2;
      }
    }
  }

  lemma StepFromDigits(text: string, m: Machine, out: seq<byte>, tagged: Option<int64>)
    requires m.lp < |text| && m.state == DIGITS && Inv(text, m, out)
    ensures Sound(text, m, out, tagged)
  {
    if !IsDigit(text[m.lp]) {
      assert DigitsEnd(text, DigitsStart(text)) == m.lp;
      if !IsSpace(text[m.lp]) {
        assert SpaceEnd(text, m.lp) == m.lp;
        assert !IsDecimalBody(text);
        if !IsHex(text[m.lp]) && text[m.lp] != ':' {
          DigitsThenOther(text, m.lp);
        }
      }
    }
  }

  lemma StepFromDigitsTrailSpace(text: string, m: Machine, out: seq<byte>, tagged: Option<int64>)
    requires m.lp < |text| && m.state == DIGITS_TRAILSPACE && Inv(text, m, out)
    ensures Sound(text, m, out, tagged)
  {
    if !IsSpace(text[m.lp]) {
      assert SpaceEnd(text, m.decEnd) == m.lp;
      assert !IsDecimalBody(text);
      DigitsThenOther(text, m.decEnd);
    }
  }

  lemma StepFromSkip(text: string, m: Machine, out: seq<byte>, tagged: Option<int64>)
    requires m.lp < |text| && m.state == SKIPSPHEX && Inv(text, m, out)
    ensures Sound(text, m, out, tagged)
  {
    if !IsSpace(text[m.lp]) {
      assert Start(text) == m.lp;
      PrependNothing(HexPairs(text, m.lp));
    }
  }

  lemma StepFromHexDigit(text: string, m: Machine, out: seq<byte>, tagged: Option<int64>)
    requires m.lp < |text| && (m.state == HEXDIGIT1 || m.state == HEXDIGIT2) && Inv(text, m, out)
    ensures Sound(text, m, out, tagged)
  {
    hide DigitsEnd, IsDecimalBody, SpaceEnd;
    if m.state == HEXDIGIT2 {
      SecondDigit(text, m, out, tagged);
    }
  }

  lemma SecondDigit(text: string, m: Machine, out: seq<byte>, tagged: Option<int64>)
    requires m.lp < |text| && m.state == HEXDIGIT2 && Inv(text, m, out)
    ensures Sound(text, m, out, tagged)
  {
    hide DigitsEnd, IsDecimalBody, SpaceEnd;
    if IsHex(text[m.lp]) {
      var e := m.hex + HexValue(text[m.lp]);
      assert (out + [e])[..|out|] == out;
      hide HexPairs;
      assert Sound(text, m, out, tagged);
    } else {
      assert HexPairs(text, m.lp - 1) == None;
    }
  }

  lemma StepFromColon(text: string, m: Machine, out: seq<byte>, tagged: Option<int64>)
    requires m.lp < |text| && m.state == HEXCOLON && Inv(text, m, out)
    ensures Sound(text, m, out, tagged)
  {
    hide DigitsEnd, IsDecimalBody;
    var front, last := out[..|out| - 1], out[|out| - 1];
    assert out == front + [last];
    if text[m.lp] == ':' {
      var rest := HexPairs(text, m.lp + 1);
      assert HexPairs(text, m.lp - 2) == Prepend([last], rest);
      if rest.Some? { assert front + ([last] + rest.value.0) == out + rest.value.0; }
    } else {
      assert HexPairs(text, m.lp - 2) == Some(([last], m.lp));
    }
  }

  lemma StepFromHexTrailSpace(text: string, m: Machine, out: seq<byte>, tagged: Option<int64>)
    requires m.lp < |text| && m.state == HEXDIGITS_TRAILSPACE && Inv(text, m, out)
    ensures Sound(text, m, out, tagged)
  {
  }

  lemma StepSound(text: string, m: Machine, out: seq<byte>, tagged: Option<int64>)
    requires m.lp < |text| && Inv(text, m, out)
    ensures Sound(text, m, out, tagged)
  {
    match m.state
    case LEADSPACE => StepFromLeadSpace(text, m, out, tagged);
    case WAITDIGITS => StepFromWaitDigits(text, m, out, tagged);
    case DIGITS => StepFromDigits(text, m, out, tagged);
    case DIGITS_TRAILSPACE => StepFromDigitsTrailSpace(text, m, out, tagged);
    case SKIPSPHEX => StepFromSkip(text, m, out, tagged);
    case HEXDIGIT1 | HEXDIGIT2 => StepFromHexDigit(text, m, out, tagged);
    case HEXCOLON => StepFromColon(text, m, out, tagged);
    case HEXDIGITS_TRAILSPACE => StepFromHexTrailSpace(text, m, out, tagged);
    case _ =>
  }

  method Advance(text: string, m: Machine, ghost out: seq<byte>, tagged: Option<int64>) returns (next: Next)
    requires m.lp < |text| && Inv(text, m, out)
    ensures SoundNext(text, m, out, tagged, next)
  {
    StepSound(text, m, out, tagged);
    next := Step(text, m, tagged);
  }

  lemma Capacity(text: string, m: Machine, out: seq<byte>)
    requires Inv(text, m, out)
    ensures |out| <= |text| / 3 + 1 && m.lp <= |text|
  {
  }

  lemma AtStart(text: string, m: Machine)
    requires m.state == LEADSPACE && m.lp == 0
    ensures Inv(text, m, [])
  {
  }

  /** What the end of the chunk means in each state. */
  lemma EndSound(text: string, m: Machine, out: seq<byte>, tagged: Option<int64>)
    requires m.lp == |text| && Inv(text, m, out)
    ensures match m.state
            case DIGITS | DIGITS_TRAILSPACE =>
              var end := if m.state == DIGITS then |text| else m.decEnd;
              m.decStart <= end <= |text| && IsDecimalBody(text) && text[m.decStart..end] == DecimalPart(text)
              && m.decStart == Start(text) && text[Start(text)] != '<'
            case HEXCOLON | HEXDIGITS_TRAILSPACE => Meaning(text, tagged) == Consumed(out)
            case LEADSPACE => Meaning(text, tagged) == NotBody
            case _ => Meaning(text, tagged) == Broken
  {
    match m.state
    case HEXCOLON =>
      var front, last := out[..|out| - 1], out[|out| - 1];
      assert out == front + [last];
      assert HexPairs(text, m.lp - 2) == Some(([last], m.lp));
    case _ =>
  }

  datatype Xpbd = BODY_CONSUMED | NOT_BODY_IGNORE | BROKEN_ENCODING | DECODER_LIMIT

  function Code(o: Outcome): Xpbd
  {
    match o
    case Consumed(_) => BODY_CONSUMED
    case NotBody => NOT_BODY_IGNORE
    case Broken => BROKEN_ENCODING
    case Limit => DECODER_LIMIT
  }

  /** The decimal text falls into the defect of asn_strtoimax_lim. */
  predicate DecimalOverrun(text: string)
  {
    Start(text) < |text| && text[Start(text)] != '<' && IsDecimalBody(text) && Overruns(DecimalPart(text))
  }

  /** The decimal end of INTEGER__xer_body_decode. */
  method StoreDecimal(st: Integer, dec: string, littleEndian: bool) returns (r: Xpbd)
    requires st.Valid()
    modifies st
    ensures st.Valid()
    ensures !Overruns(dec) ==>
              r == Code(DecimalOutcome(dec))
              && (DecimalOutcome(dec).Consumed? ==> st.Contents() == DecimalOutcome(dec).contents)
  {
    var parsed := Strtoimax(dec);
    match parsed {
      case OK(_, value) =>
        if -TWO_63 <= value < TWO_63 {
          st.FromImax(value, littleEndian);
          r := BODY_CONSUMED;
        } else {
          r := DECODER_LIMIT;
        }
      case ERROR_RANGE(_) => r := DECODER_LIMIT;
      case _ => r := BROKEN_ENCODING;
    }
  }

  /** The loop of INTEGER__xer_body_decode: it ends on every chunk although the automaton may go back
      to the start once, and every store lies inside the preallocated buffer. */
  method ScanBody(buffer: array<byte>, text: string, tagged: Option<int64>) returns (stop: Option<Next>, m: Machine, size: nat)
    requires buffer.Length == |text| / 3 + 1 + 1
    modifies buffer
    ensures size < buffer.Length
    ensures stop == None ==> m.lp == |text| && Inv(text, m, buffer[..size])
    ensures stop.Some? ==> !stop.value.Continue? && SoundNext(text, m, buffer[..size], tagged, stop.value)
  {
    hide Inv, Meaning;
    m, size := Machine(LEADSPACE, 0, 0, 0, 0), 0;
    ghost var out: seq<byte> := [];
    AtStart(text, m);
    while m.lp < |text|
      invariant m.lp <= |text|
      invariant size < buffer.Length && buffer[..size] == out
      invariant Inv(text, m, out)
      decreases if BeforeRewind(m.state) then 1 else 0, |text| - m.lp
    {
      var next := Advance(text, m, out, tagged);
      match next {
        case Continue(m', emit) =>
          if emit.Some? {
            buffer[size] := emit.value;
            out := out + [emit.value];
            size := size + 1;
          }
          m := m';
          Capacity(text, m, out);
        case _ =>
          return Some(next), m, size;
      }
    }
    stop := None;
  }

  /** INTEGER__xer_body_decode: the result is the meaning of the text. */
  method BodyDecode(st: Integer, text: string, tagged: Option<int64>, littleEndian: bool) returns (r: Xpbd)
    modifies st
    ensures st.Valid()
    ensures !DecimalOverrun(text) ==>
              r == Code(Meaning(text, tagged))
              && (Meaning(text, tagged).Consumed? ==> st.Contents() == Meaning(text, tagged).contents)
    ensures !DecimalOverrun(text) ==> Answers(text, tagged, r, st.Contents())
  {
    hide SpaceEnd, DigitsEnd, HexPairs, Step, Inv, Answers;
    // INTEGER_st_prealloc(st, chunk_size / 3 + 1) asks for one octet more
    var buffer := new byte[|text| / 3 + 1 + 1];
    var stop, m, size := ScanBody(buffer, text, tagged);
    st.buf, st.size := buffer, size;
    if stop.Some? {
      if stop.value == Break(END_ENUM) {
        st.FromImax(tagged.value, littleEndian);
        MeaningAnswers(text, tagged, st.Contents());
        return BODY_CONSUMED;
      }
      MeaningAnswers(text, tagged, st.Contents());
      return BROKEN_ENCODING;
    }
    EndSound(text, m, buffer[..size], tagged);
    match m.state {
      case DIGITS | DIGITS_TRAILSPACE =>
        var decEnd := if m.state == DIGITS then |text| else m.decEnd;
        r := StoreDecimal(st, text[m.decStart..decEnd], littleEndian);
      case HEXCOLON | HEXDIGITS_TRAILSPACE =>
        buffer[size] := 0;
        r := BODY_CONSUMED;
      case LEADSPACE => r := NOT_BODY_IGNORE;
      case _ => r := BROKEN_ENCODING;
    }
    if !DecimalOverrun(text) { MeaningAnswers(text, tagged, st.Contents()); }
  }

  // ----- printing -----

  /** printf %jd */
  function Digits(n: nat): string
  {
    if n < 10 then [H2c(n)] else Digits(n / 10) + [H2c(n % 10)]
  }

  function DecimalText(v: int): string { if v < 0 then "-" + Digits(-v) else Digits(v) }

  function HexPair(b: byte): string { [H2c(b / 16), H2c(b % 16)] }

  /** Two upper-case digits per octet, colons between them. */
  function HexColon(bs: seq<byte>): string
  {
    if bs == [] then "" else if |bs| == 1 then HexPair(bs[0]) else HexPair(bs[0]) + ":" + HexColon(bs[1..])
  }

  function DumpText(bs: seq<byte>): string
  {
    if FitsInt64(Signed(bs)) then DecimalText(Signed(bs)) else HexColon(bs)
  }

  /** The text of a stretch of octets with a colon behind every pair. */
  function HexColons(bs: seq<byte>): string
  {
    if bs == [] then "" else HexColons(bs[..|bs| - 1]) + HexPair(bs[|bs| - 1]) + ":"
  }

  lemma {:induction false} ColonsAreColon(bs: seq<byte>)
    requires bs != []
    ensures HexColons(bs) == HexColon(bs) + ":"
    decreases |bs|
  {
    if |bs| == 1 {
      assert bs[..0] == [];
      assert HexColons(bs) == "" + HexPair(bs[0]) + ":";
    } else {
      ColonsFront(bs);
      ColonsAreColon(bs[1..]);
      assert HexColons(bs) == HexPair(bs[0]) + ":" + (HexColon(bs[1..]) + ":");
    }
  }

  lemma {:induction false} ColonsFront(bs: seq<byte>)
    requires bs != []
    ensures HexColons(bs) == HexPair(bs[0]) + ":" + HexColons(bs[1..])
    decreases |bs|
  {
    if |bs| == 1 {
      assert bs[..0] == [] && bs[1..] == [];
    } else {
      var front := bs[..|bs| - 1];
      ColonsFront(front);
      assert bs[1..][..|bs| - 2] == front[1..];
      assert HexColons(bs[1..]) == HexColons(front[1..]) + HexPair(bs[|bs| - 1]) + ":";
    }
  }

  lemma HexColonsSnoc(bs: seq<byte>, k: nat)
    requires k < |bs|
    ensures HexColons(bs[..k + 1]) == HexColons(bs[..k]) + (HexPair(bs[k]) + ":")
  {
    assert bs[..k + 1][..k] == bs[..k];
  }

  /** INTEGER__dump for a type without specifics: output is what the callback received, wrote the returned count. */
  method Dump(st: Integer) returns (output: string, wrote: nat)
    requires st.Valid() && st.buf != null
    ensures output == DumpText(st.Contents()) && wrote == |output|
  {
    var value := st.ToImax();
    assert st.size == 0 ==> st.Contents() == [] && Signed([]) == 0;
    if value.Converted? {
      output := DecimalText(value.value);
      wrote := |output|;
    } else {
      output, wrote := DumpHex(st.buf, st.size);
    }
  }

  method PutPair(scratch: array<char>, p: nat, b: byte)
    requires p + 3 <= scratch.Length
    modifies scratch
    ensures scratch[..p + 3] == old(scratch[..p]) + (HexPair(b) + ":")
  {
    scratch[p] := H2c(b / 16);
    scratch[p + 1] := H2c(b % 16);
    scratch[p + 2] := ':';
  }

  /** The long xx:yy:zz form, through a scratch buffer of 32 characters. */
  method DumpHex(bytes: array<byte>, size: nat) returns (output: string, wrote: nat)
    requires 0 < size <= bytes.Length
    ensures output == HexColon(bytes[..size]) && wrote == |output|
  {
    var scratch := new char[32];
    var p, buf := 0, 0;
    output, wrote := "", 0;
    ghost var all, text := bytes[..size], "";
    while buf < size
      invariant 0 <= buf <= size && 0 <= p <= 30 && wrote == |output|
      invariant buf > 0 ==> p >= 3
      invariant bytes[..size] == all
      invariant output + scratch[..p] == text == HexColons(all[..buf])
    {
      if p >= 32 - 4 {
        output := output + scratch[..p];
        wrote := wrote + p;
        p := 0;
        assert output + scratch[..0] == output;
      }
      ghost var held, pair := scratch[..p], HexPair(bytes[buf]) + ":";
      PutPair(scratch, p, bytes[buf]);
      p := p + 3;
      assert output + (held + pair) == text + pair;
      text := text + pair;
      HexColonsSnoc(all, buf);
      buf := buf + 1;
    }
    assert all[..buf] == all;
    ColonsAreColon(all);
    DropColon(output, scratch[..p], HexColon(all));
    if p != 0 { p := p - 1; }
    wrote := wrote + p;
    output := output + scratch[..p];
  }

  lemma DropColon(output: string, held: string, text: string)
    requires output + held == text + ":" && held != ""
    ensures output + held[..|held| - 1] == text
  {
    assert (output + held)[..|output| + |held| - 1] == output + held[..|held| - 1];
    assert (text + ":")[..|text|] == text;
  }

  // ----- printing, then reading -----

  lemma {:induction false} DigitsDenote(n: nat)
    ensures Digits(n) != "" && AllDigits(Digits(n)) && Decimal(Digits(n)) == n
  {
    if n < 10 {
      var s := Digits(n);
      assert s[..0] == "";
    } else {
      DigitsDenote(n / 10);
      var s := Digits(n);
      assert s[..|s| - 1] == Digits(n / 10);
    }
  }

  /** strtoimax on a printed 64-bit value. */
  lemma ImaxOfDecimalText(v: int)
    requires FitsInt64(v)
    ensures ImaxSpec(DecimalText(v)) == OK(|DecimalText(v)|, v)
    ensures !Overruns(DecimalText(v))
  {
    var s := DecimalText(v);
    if v < 0 {
      DigitsDenote(-v);
      assert s[1..] == Digits(-v);
      ExactIsScan(s, 1, TWO_63, OK(|s|, -v));
    } else {
      DigitsDenote(v);
      assert s[0..] == s;
      assert IsDigit(s[0]);
      ExactIsScan(s, 0, TWO_63 - 1, OK(|s|, v));
    }
    if Overruns(s) {
      var k :| 1 < k < |s| && OverrunsAt(s, k);
      OverrunIsRangeError(s, k);
    }
  }

  lemma DecimalTextReads(lead: string, v: int, trail: string, tagged: Option<int64>)
    requires FitsInt64(v) && AllSpace(lead) && AllSpace(trail)
    ensures var text := lead + DecimalText(v) + trail;
            Meaning(text, tagged) == Consumed(Encode64(v)) && !DecimalOverrun(text)
  {
    var s := DecimalText(v);
    var text := lead + s + trail;
    var a, e := |lead|, |lead| + |s|;
    var n := if v < 0 then -v else v;
    DigitsDenote(n);
    var d := if v < 0 then a + 1 else a;
    forall k | d <= k < e ensures IsDigit(text[k]) {
      assert text[k] == s[k - a] == Digits(n)[k - d];
    }
    assert text[a] == s[0];
    assert v >= 0 ==> text[a] == Digits(n)[0] && IsDigit(text[a]);
    SignedDigitsBody(text, a, d, e);
    assert text[a..e] == s;
    ImaxOfDecimalText(v);
  }

  lemma {:induction false} NoSuperfluousZero(n: nat)
    ensures n > 0 ==> Digits(n)[0] != '0'
  {
    if n >= 10 {
      NoSuperfluousZero(n / 10);
      DigitsDenote(n / 10);
    }
  }

  lemma {:induction false} HexColonAt(bs: seq<byte>, i: nat)
    requires i < |bs|
    ensures |HexColon(bs)| == 3 * |bs| - 1
    ensures HexColon(bs)[3 * i] == H2c(bs[i] / 16) && HexColon(bs)[3 * i + 1] == H2c(bs[i] % 16)
    ensures i + 1 < |bs| ==> HexColon(bs)[3 * i + 2] == ':'
  {
    if |bs| > 1 { HexColonAt(bs[1..], if i == 0 then 0 else i - 1); }
  }

  /** What is printed: of a value of 64 bits its decimal numeral, with a minus sign exactly below zero and no zero in
      front; of any other two digits an octet and a colon between octets. */
  lemma DumpExactly(bs: seq<byte>, i: nat)
    requires i < |bs|
    ensures var text, v := DumpText(bs), Signed(bs);
            if FitsInt64(v) then
              var digits := if v < 0 then text[1..] else text;
              && AllDigits(digits) && Decimal(digits) == (if v < 0 then -v else v)
              && (v < 0 <==> text[0] == '-') && (digits[0] == '0' <==> v == 0) && (v == 0 ==> text == "0")
            else
              && |text| == 3 * |bs| - 1
              && text[3 * i] == "0123456789ABCDEF"[bs[i] / 16] && text[3 * i + 1] == "0123456789ABCDEF"[bs[i] % 16]
              && (i + 1 < |bs| ==> text[3 * i + 2] == ':')
  {
    NumeralExactly(Signed(bs));
    HexColonAt(bs, i);
    H2cExactly(bs[i] / 16);
    H2cExactly(bs[i] % 16);
    hide DecimalText, HexColon, Signed, H2c, AllDigits, Decimal;
  }

  lemma NumeralExactly(v: int)
    ensures var text := DecimalText(v);
            var digits := if v < 0 then text[1..] else text;
            && AllDigits(digits) && Decimal(digits) == (if v < 0 then -v else v)
            && text != "" && digits != "" && (v < 0 <==> text[0] == '-') && (digits[0] == '0' <==> v == 0)
            && (v == 0 ==> text == "0")
  {
    var n := if v < 0 then -v else v;
    DigitsDenote(n);
    NoSuperfluousZero(n);
    hide Decimal;
    assert IsDigit(Digits(n)[0]);
    assert v < 0 ==> ("-" + Digits(n))[1..] == Digits(n);
  }

  lemma {:induction false} HexColonReads(text: string, i: nat, bs: seq<byte>, end: nat)
    requires bs != [] && i <= end <= |text| && text[i..end] == HexColon(bs)
    requires end < |text| ==> text[end] != ':'
    ensures HexPairs(text, i) == Some((bs, end))
    decreases |bs|
  {
    var b := bs[0];
    assert text[i..end][0] == H2c(b / 16) && text[i..end][1] == H2c(b % 16);
    if |bs| > 1 {
      assert text[i..end][2] == ':';
      assert text[i + 3..end] == text[i..end][3..] == HexColon(bs[1..]);
      HexColonReads(text, i + 3, bs[1..], end);
      assert [b] + bs[1..] == bs;
    } else {
      assert bs == [b];
    }
  }

  lemma HexColonHead(bs: seq<byte>)
    requires |bs| > 1
    ensures var s := HexColon(bs); |s| > 2 && IsHex(s[0]) && IsHex(s[1]) && s[2] == ':'
  {
    assert |HexPair(bs[0])| == 2;
  }

  lemma DigitsStopAtColon(text: string, a: nat)
    requires a + 2 < |text| && IsHex(text[a]) && IsHex(text[a + 1]) && text[a + 2] == ':'
    requires a == Start(text)
    ensures !IsDecimalBody(text)
  {
    assert DigitsStart(text) == a;
    assert DigitsEnd(text, a + 2) == a + 2;
    assert DigitsEnd(text, a + 1) == (if IsDigit(text[a + 1]) then a + 2 else a + 1);
    var e := DigitsEnd(text, a);
    assert e == a || e == a + 1 || e == a + 2;
    assert SpaceEnd(text, e) == e;
  }

  lemma HexMeaning(text: string, bs: seq<byte>, e: nat, tagged: Option<int64>)
    requires Start(text) < |text| && IsHex(text[Start(text)]) && !IsDecimalBody(text)
    requires HexPairs(text, Start(text)) == Some((bs, e)) && SpaceEnd(text, e) == |text|
    ensures Meaning(text, tagged) == Consumed(bs) && !DecimalOverrun(text)
  {
  }

  lemma HexPositions(text: string, a: nat, e: nat, s: string)
    requires a < e <= |text| && text[a..e] == s
    requires |s| > 2 && IsHex(s[0]) && IsHex(s[1]) && s[2] == ':'
    requires forall k :: 0 <= k < a ==> IsSpace(text[k])
    requires forall k :: e <= k < |text| ==> IsSpace(text[k])
    ensures Start(text) == a && IsHex(text[a]) && !IsDecimalBody(text) && SpaceEnd(text, e) == |text|
  {
    assert text[a] == s[0] && text[a + 1] == s[1] && text[a + 2] == s[2];
    SpaceEndAt(text, 0, a);
    SpaceEndAt(text, e, |text|);
    DigitsStopAtColon(text, a);
  }

  /** Hexadecimal pairs between white space are read octet for octet. */
  lemma HexBodyReads(text: string, a: nat, e: nat, s: string, bs: seq<byte>, tagged: Option<int64>)
    requires a < e <= |text| && text[a..e] == s == HexColon(bs) && |bs| > 1
    requires |s| > 2 && IsHex(s[0]) && IsHex(s[1]) && s[2] == ':'
    requires forall k :: 0 <= k < a ==> IsSpace(text[k])
    requires forall k :: e <= k < |text| ==> IsSpace(text[k])
    ensures Meaning(text, tagged) == Consumed(bs) && !DecimalOverrun(text)
  {
    HexPositions(text, a, e, s);
    assert e < |text| ==> IsSpace(text[e]);
    hide Meaning, DecimalOverrun, HexColon, HexPairs, SpaceEnd, IsDecimalBody;
    HexColonReads(text, a, bs, e);
    HexMeaning(text, bs, e, tagged);
  }

  lemma HexTextReads(lead: string, bs: seq<byte>, trail: string, s: string, tagged: Option<int64>)
    requires AllSpace(lead) && AllSpace(trail) && |bs| > 1 && s == HexColon(bs)
    ensures Meaning(lead + s + trail, tagged) == Consumed(bs) && !DecimalOverrun(lead + s + trail)
  {
    hide HexColon, Meaning, DecimalOverrun;
    HexColonHead(bs);
    var text := lead + s + trail;
    var a, e := |lead|, |lead| + |s|;
    assert text[a..e] == s;
    assert forall k :: e <= k < |text| ==> text[k] == trail[k - e];
    HexBodyReads(text, a, e, s, bs, tagged);
  }

  /** The round trip of INTEGER through XML: what INTEGER__dump prints for a non-empty octet string is
      read, inside any white space, as the same number. A number of at most 64 bits comes back in its
      shortest form, a wider one octet for octet. */
  lemma XerRoundTrip(bs: seq<byte>, lead: string, trail: string, tagged: Option<int64>)
    requires bs != [] && AllSpace(lead) && AllSpace(trail)
    ensures var text := lead + DumpText(bs) + trail;
            && !DecimalOverrun(text)
            && Meaning(text, tagged) == Consumed(if FitsInt64(Signed(bs)) then Encode64(Signed(bs)) else bs)
            && Signed(Meaning(text, tagged).contents) == Signed(bs)
  {
    if FitsInt64(Signed(bs)) {
      DecimalTextReads(lead, Signed(bs), trail, tagged);
      Encode64Correct(Signed(bs));
    } else {
      FitsExactly(bs);
      TrimCorrect(bs);
      HexTextReads(lead, bs, trail, HexColon(bs), tagged);
    }
  }
  // ----- enumeration tags -----

  /** nat_value is a long. */
  predicate FitValues(s: Enumerated.Specifics)
  {
    forall i :: 0 <= i < |s.value2enum| ==> FitsInt64(s.value2enum[i].value)
  }

  /** The look-up of the chunk, which starts behind the chunk's first character, finds element i. */
  ghost predicate Finds(s: Enumerated.Specifics, text: string, i: nat)
  {
    && i < |s.value2enum| && Enumerated.TagName(text).Some?
    && Enumerated.Matches(Enumerated.TagName(text).value, s.value2enum[i])
  }

  ghost function TagValue(s: Enumerated.Specifics, text: string): Option<int64>
    requires FitValues(s)
  {
    if exists i: nat :: Finds(s, text, i) then
      var i: nat :| Finds(s, text, i);
      Some(s.value2enum[i].value)
    else None
  }

  /** No chunk holds the name of two elements. */
  lemma FindsOne(s: Enumerated.Specifics, text: string, i: nat, k: nat)
    requires Enumerated.WellFormed(s) && Finds(s, text, i) && Finds(s, text, k)
    ensures i == k
  {
    var name := Enumerated.TagName(text).value;
    Enumerated.NamesAscend(s, name);
    Enumerated.CompareNamesEqual(name, s.value2enum[i].name);
    Enumerated.CompareNamesEqual(name, s.value2enum[k].name);
    assert i in s.enum2value && k in s.enum2value;
    var a: nat :| a < |s.enum2value| && s.enum2value[a] == i;
    var b: nat :| b < |s.enum2value| && s.enum2value[b] == k;
    assert !(a < b) && !(b < a);
  }

  /** INTEGER__xer_body_decode for a type with enumeration names. */
  method BodyDecodeNamed(st: Integer, s: Enumerated.Specifics, text: string, littleEndian: bool) returns (r: Xpbd)
    requires Enumerated.WellFormed(s) && FitValues(s)
    modifies st
    ensures st.Valid()
    ensures !DecimalOverrun(text) ==>
              r == Code(Meaning(text, TagValue(s, text)))
              && (Meaning(text, TagValue(s, text)).Consumed? ==> st.Contents() == Meaning(text, TagValue(s, text)).contents)
  {
    var tagged: Option<int64> := None;
    if text != "" {
      var index := Enumerated.EnumToValue(s, text);
      if index >= 0 {
        tagged := Some(s.value2enum[index].value);
        assert Finds(s, text, index);
        ghost var i: nat :| Finds(s, text, i) && TagValue(s, text) == Some(s.value2enum[i].value);
        FindsOne(s, text, i, index);
      }
    }
    assert tagged == TagValue(s, text);
    r := BodyDecode(st, text, tagged, littleEndian);
  }

  /** The tag printed for an element is read as that element's value. */
  lemma TagRoundTrip(s: Enumerated.Specifics, i: nat)
    requires Enumerated.WellFormed(s) && FitValues(s) && i < |s.value2enum|
    ensures var text, value := "<" + s.value2enum[i].name + "/>", s.value2enum[i].value;
            && !DecimalOverrun(text) && Meaning(text, TagValue(s, text)) == Consumed(Encode64(value))
            && Shortest(Encode64(value)) && Signed(Encode64(value)) == value
  {
    var text := "<" + s.value2enum[i].name + "/>";
    Enumerated.XerRoundTrip(s, i, i);
    assert Finds(s, text, i);
    var k: nat :| Finds(s, text, k) && TagValue(s, text) == Some(s.value2enum[k].value);
    FindsOne(s, text, i, k);
    Encode64Correct(s.value2enum[i].value);
    assert text[0] == '<' && Start(text) == 0;
  }
}
