/** asn_strtoumax_lim and asn_strtoimax_lim: decimal text against the 64-bit limits. */
module Strtox {
  import opened Bytes
  import opened Text
  import opened IntegerCodec

  /** The five results; end is what the call leaves in *end, value what it stores through the pointer. */
  datatype Strtox =
    | OK(end: nat, value: int)
    | EXTRA_DATA(end: nat, value: int)
    | ERROR_RANGE(end: nat)
    | EXPECT_MORE(end: nat)
    | ERROR_INVAL

  /** (2^63 - 1) / 10, also the quotient of 2^63 by 10. */
  const BOUNDARY: int := 922337203685477580

  predicate AllDigits(s: string) { forall i :: 0 <= i < |s| ==> IsDigit(s[i]) }

  /** The number a digit string denotes. */
  function Decimal(s: string): nat
    requires AllDigits(s)
  {
    if s == "" then 0 else Decimal(s[..|s| - 1]) * 10 + DigitValue(s[|s| - 1])
  }

  /** Exact reading in unbounded arithmetic: stop at the first non-digit, or at the first digit
      that carries the number over the limit. */
  function Scan(s: string, i: nat, acc: nat, limit: nat): Strtox
    requires i <= |s|
    decreases |s| - i
  {
    if i == |s| then OK(i, acc)
    else if !IsDigit(s[i]) then EXTRA_DATA(i, acc)
    else if acc * 10 + DigitValue(s[i]) > limit then ERROR_RANGE(i)
    else Scan(s, i + 1, acc * 10 + DigitValue(s[i]), limit)
  }

  /** What Scan answers, said without recursion. */
  ghost predicate Exact(s: string, start: nat, limit: nat, r: Strtox)
    requires start <= |s|
  {
    match r
    case OK(end, value) => end == |s| && AllDigits(s[start..]) && value == Decimal(s[start..]) && value <= limit
    case EXTRA_DATA(end, value) =>
      start <= end < |s| && !IsDigit(s[end]) && AllDigits(s[start..end]) && value == Decimal(s[start..end]) && value <= limit
    case ERROR_RANGE(end) =>
      start <= end < |s| && AllDigits(s[start..end + 1])
      && Decimal(s[start..end + 1][..end - start]) <= limit < Decimal(s[start..end + 1])
    case _ => false
  }

  lemma DecimalSnoc(s: string, start: nat, i: nat)
    requires start <= i < |s| && AllDigits(s[start..i]) && IsDigit(s[i])
    ensures AllDigits(s[start..i + 1])
    ensures Decimal(s[start..i + 1]) == Decimal(s[start..i]) * 10 + DigitValue(s[i])
    ensures s[start..i + 1][..i - start] == s[start..i]
  {
    assert s[start..i + 1][..i - start] == s[start..i];
  }

  lemma {:induction false} ScanExact(s: string, start: nat, i: nat, limit: nat)
    requires start <= i <= |s| && AllDigits(s[start..i]) && Decimal(s[start..i]) <= limit
    ensures Exact(s, start, limit, Scan(s, i, Decimal(s[start..i]), limit))
    decreases |s| - i
  {
    if i == |s| {
      assert s[start..i] == s[start..];
    } else if IsDigit(s[i]) {
      DecimalSnoc(s, start, i);
      if Decimal(s[start..i + 1]) <= limit {
        ScanExact(s, start, i + 1, limit);
      }
    }
  }

  lemma {:induction false} DecimalPrefix(s: string, m: nat)
    requires AllDigits(s) && m <= |s|
    ensures AllDigits(s[..m]) && Decimal(s[..m]) <= Decimal(s)
    decreases |s|
  {
    if m == |s| {
      assert s[..m] == s;
    } else {
      assert s[..|s| - 1][..m] == s[..m];
      DecimalPrefix(s[..|s| - 1], m);
    }
  }

  /** Scan passes over digits that stay within the limit. */
  lemma {:induction false} ScanSkips(s: string, start: nat, i: nat, end: nat, limit: nat)
    requires start <= i <= end <= |s| && AllDigits(s[start..end]) && Decimal(s[start..end]) <= limit
    ensures AllDigits(s[start..i])
    ensures Scan(s, i, Decimal(s[start..i]), limit) == Scan(s, end, Decimal(s[start..end]), limit)
    decreases end - i
  {
    hide Decimal, AllDigits;
    DigitsUpTo(s, start, i, end);
    if i < end {
      DigitsUpTo(s, start, i + 1, end);
      ScanSkips(s, start, i + 1, end, limit);
      DecimalSnoc(s, start, i);
    }
  }

  /** A prefix of digits is of digits, and no larger. */
  lemma DigitsUpTo(s: string, start: nat, i: nat, end: nat)
    requires start <= i <= end <= |s| && AllDigits(s[start..end])
    ensures AllDigits(s[start..i]) && Decimal(s[start..i]) <= Decimal(s[start..end])
    ensures i < end ==> IsDigit(s[i])
  {
    var all := s[start..end];
    assert all[..i - start] == s[start..i];
    DecimalPrefix(all, i - start);
    assert i < end ==> s[i] == all[i - start];
  }

  /** An exact answer is the one Scan gives. */
  lemma ExactIsScan(s: string, start: nat, limit: nat, q: Strtox)
    requires start <= |s| && Exact(s, start, limit, q)
    ensures Scan(s, start, 0, limit) == q
  {
    assert s[start..start] == "";
    assert q.OK? ==> s[start..q.end] == s[start..];
    if q.ERROR_RANGE? {
      assert s[q.end] == s[start..q.end + 1][q.end - start];
      assert s[start..q.end] == s[start..q.end + 1][..q.end - start];
      DecimalPrefix(s[start..q.end + 1], q.end - start);
      DecimalSnoc(s, start, q.end);
    }
    ScanSkips(s, start, start, q.end, limit);
  }

  /** The reading asn_strtoumax_lim promises. */
  function UmaxSpec(s: string): Strtox
  {
    if s == "" || s[0] == '-' then ERROR_INVAL
    else
      var start := if s[0] == '+' then 1 else 0;
      if start == |s| then EXPECT_MORE(start) else Scan(s, start, 0, TWO_64 - 1)
  }

  method Strtoumax(s: string) returns (r: Strtox)
    ensures r == UmaxSpec(s)
  {
    var str, end := 0, |s|;
    if str >= end { return ERROR_INVAL; }
    if s[str] == '-' {
      return ERROR_INVAL;
    } else if s[str] == '+' {
      str := str + 1;
      if str >= end { return EXPECT_MORE(str); }
    }
    ghost var start := str;
    var value: uint64, lastDigitMax := 0, 5;
    while str < end
      invariant start <= str <= end
      invariant Scan(s, start, 0, TWO_64 - 1) == Scan(s, str, value, TWO_64 - 1)
    {
      if !IsDigit(s[str]) { return EXTRA_DATA(str, value); }
      var d := DigitValue(s[str]);
      if value < 1844674407370955161 {
        value := value * 10 + d;
      } else if value == 1844674407370955161 {
        if d <= lastDigitMax { value := value * 10 + d; } else { return ERROR_RANGE(str); }
      } else {
        return ERROR_RANGE(str);
      }
      str := str + 1;
    }
    r := OK(str, value);
  }

  function Negated(r: Strtox): Strtox
  {
    match r
    case OK(end, v) => OK(end, -v)
    case EXTRA_DATA(end, v) => EXTRA_DATA(end, -v)
    case _ => r
  }

  /** The reading asn_strtoimax_lim promises. */
  function ImaxSpec(s: string): Strtox
  {
    if s == "" then ERROR_INVAL
    else
      var start := if s[0] == '-' || s[0] == '+' then 1 else 0;
      if start == |s| then EXPECT_MORE(start)
      else if s[0] == '-' then
        Negated(Scan(s, start, 0, TWO_63))
      else Scan(s, start, 0, TWO_63 - 1)
  }

  /** A negative number whose digits already reach 9223372036854775800 and go on. */
  predicate Overruns(s: string)
  {
    s != "" && s[0] == '-' && exists k :: 1 < k < |s| && OverrunsAt(s, k)
  }

  predicate OverrunsAt(s: string, k: nat)
    requires 1 < k < |s|
  {
    IsDigit(s[k]) && AllDigits(s[1..k]) && 10 * BOUNDARY <= Decimal(s[1..k]) <= TWO_63
  }

  lemma OverrunIsRangeError(s: string, k: nat)
    requires 1 < k < |s| && s[0] == '-' && OverrunsAt(s, k)
    ensures ImaxSpec(s) == ERROR_RANGE(k)
  {
    DecimalSnoc(s, 1, k);
    assert s[1..1] == "";
    ExactIsScan(s, 1, TWO_63, ERROR_RANGE(k));
  }

  /** Two's-complement wrap of a signed result; C leaves it undefined. */
  function Wrap(x: int): int64 { AsSigned(x % TWO_64) }

  datatype Step = Took(value: int64, sign: int) | OverLimit

  /** The digit case of asn_strtoimax_lim. */
  function TakeDigit(value: int64, sign: int, d: int, lastDigitMax: int): Step
  {
    if value < BOUNDARY then Took(Wrap(value * 10 + d), sign)
    else if value == BOUNDARY then
      if d <= lastDigitMax then
        if sign > 0 then Took(Wrap(value * 10 + d), sign) else Took(Wrap(-value * 10 - d), 1)
      else OverLimit
    else OverLimit
  }

  /** value and sign of the machine stand for the magnitude read so far. */
  predicate Tracks(negative: bool, value: int, sign: int, mag: int)
  {
    if negative && mag >= 10 * BOUNDARY then sign == 1 && value == -mag
    else sign == (if negative then -1 else 1) && value == mag
  }

  function Limit(negative: bool): nat { if negative then TWO_63 else TWO_63 - 1 }

  /** As long as a negative number has not been flipped, a digit is taken exactly when the limit allows it. */
  lemma DigitStep(negative: bool, value: int64, sign: int, mag: nat, d: int)
    requires 0 <= d <= 9 && mag <= Limit(negative) && Tracks(negative, value, sign, mag)
    requires !(negative && mag >= 10 * BOUNDARY)
    ensures var step := TakeDigit(value, sign, d, if negative then 8 else 7);
            if mag * 10 + d > Limit(negative) then step == OverLimit
            else step.Took? && Tracks(negative, step.value, step.sign, mag * 10 + d)
  {
  }

  lemma WrapSmall(x: int)
    requires FitsInt64(x)
    ensures Wrap(x) == x
  {
  }

  lemma ScanStep(s: string, i: nat, acc: nat, limit: nat)
    requires i <= |s|
    ensures Scan(s, i, acc, limit)
         == if i == |s| then OK(i, acc)
            else if !IsDigit(s[i]) then EXTRA_DATA(i, acc)
            else if acc * 10 + DigitValue(s[i]) > limit then ERROR_RANGE(i)
            else Scan(s, i + 1, acc * 10 + DigitValue(s[i]), limit)
  {
  }

  /** asn_strtoimax_lim. The step that takes a negative number to its last digit flips sign and value,
      after which the boundary tests no longer guard: the answer is the promised one exactly when no
      further digit follows that step. */
  method Strtoimax(s: string) returns (r: Strtox)
    ensures r == ImaxSpec(s) <==> !Overruns(s)
  {
    hide Scan, Decimal, OverrunsAt, AllDigits, Wrap;
    var sign, lastDigitMax := 1, 7;
    var str, end := 0, |s|;
    if str >= end { return ERROR_INVAL; }
    if s[str] == '-' || s[str] == '+' {
      if s[str] == '-' {
        lastDigitMax := lastDigitMax + 1;
        sign := -1;
      }
      str := str + 1;
      if str >= end { return EXPECT_MORE(str); }
    }
    ghost var start, negative := str, s[0] == '-';
    ghost var mag: nat, overrunAt := 0, 0;
    var value: int64 := 0;
    NoDigits(s, start);
    while str < end
      invariant start <= str <= end
      invariant overrunAt != 0 ==> 1 < overrunAt < str && negative && OverrunsAt(s, overrunAt)
      invariant overrunAt == 0 ==> AllDigits(s[start..str]) && Decimal(s[start..str]) == mag <= Limit(negative)
      invariant overrunAt == 0 ==> Scan(s, start, 0, Limit(negative)) == Scan(s, str, mag, Limit(negative))
      invariant overrunAt == 0 ==> Tracks(negative, value, sign, mag)
    {
      ScanStep(s, str, mag, Limit(negative));
      if !IsDigit(s[str]) {
        if overrunAt == 0 { FinalValue(negative, value, sign, mag); }
        r := EXTRA_DATA(str, Wrap(sign * value));
        Verdict(s, r, str, overrunAt, start, mag);
        return;
      }
      var d := DigitValue(s[str]);
      if overrunAt == 0 {
        DecimalSnoc(s, start, str);
        if negative && mag >= 10 * BOUNDARY {
          overrunAt := str;
          OverrunHere(s, str);
        } else {
          DigitStep(negative, value, sign, mag, d);
        }
      }
      match TakeDigit(value, sign, d, lastDigitMax) {
        case Took(v, g) =>
          value, sign, mag := v, g, mag * 10 + d;
        case OverLimit =>
          r := ERROR_RANGE(str);
          assert overrunAt != str;
          Verdict(s, r, str, overrunAt, start, mag);
          return;
      }
      str := str + 1;
    }
    ScanStep(s, str, mag, Limit(negative));
    if overrunAt == 0 { FinalValue(negative, value, sign, mag); }
    r := OK(str, Wrap(sign * value));
    Verdict(s, r, str, overrunAt, start, mag);
  }

  lemma FinalValue(negative: bool, value: int64, sign: int, mag: int)
    requires 0 <= mag <= Limit(negative) && Tracks(negative, value, sign, mag)
    ensures Wrap(sign * value) == if negative then -mag else mag
  {
    WrapSmall(if negative then -mag else mag);
  }

  lemma NoDigits(s: string, start: nat)
    requires start <= |s|
    ensures AllDigits(s[start..start]) && Decimal(s[start..start]) == 0
  {
    assert s[start..start] == "";
  }

  lemma OverrunHere(s: string, k: nat)
    requires 1 < k < |s| && IsDigit(s[k]) && AllDigits(s[1..k]) && 10 * BOUNDARY <= Decimal(s[1..k]) <= TWO_63
    ensures OverrunsAt(s, k)
  {
  }

  /** How the answer r found at str compares with the promised one. */
  lemma Verdict(s: string, r: Strtox, str: nat, overrunAt: nat, start: nat, mag: nat)
    requires s != "" && start == (if s[0] == '-' || s[0] == '+' then 1 else 0) && start <= str <= |s|
    requires r.OK? || r.EXTRA_DATA? || r == ERROR_RANGE(str)
    requires overrunAt != 0 ==> s[0] == '-' && 1 < overrunAt < str && OverrunsAt(s, overrunAt)
    requires overrunAt == 0 ==> r == ImaxSpec(s) && AllDigits(s[start..str]) && Decimal(s[start..str]) == mag
    requires overrunAt == 0 && r.ERROR_RANGE? && s[0] == '-' ==> mag < 10 * BOUNDARY
    ensures r == ImaxSpec(s) <==> !Overruns(s)
  {
    if overrunAt != 0 {
      OverrunIsRangeError(s, overrunAt);
    } else if s[0] == '-' {
      forall k | 1 < k < |s| && OverrunsAt(s, k) ensures ImaxSpec(s) == ERROR_RANGE(k) {
        OverrunIsRangeError(s, k);
      }
    }
  }

  /** The promised readings, independently of any scanning order: they are the only exact ones. */
  lemma SpecsAreExact(s: string, q: Strtox)
    requires s != ""
    ensures s[0] != '-' && UmaxSpec(s) != EXPECT_MORE(1) ==>
              var start := if s[0] == '+' then 1 else 0;
              Exact(s, start, TWO_64 - 1, q) <==> q == UmaxSpec(s)
    ensures s[0] != '-' && ImaxSpec(s) != EXPECT_MORE(1) ==>
              var start := if s[0] == '+' then 1 else 0;
              Exact(s, start, TWO_63 - 1, q) <==> q == ImaxSpec(s)
    ensures s[0] == '-' && |s| > 1 ==> (Exact(s, 1, TWO_63, q) <==> Negated(q) == ImaxSpec(s))
  {
    hide Scan, Exact;
    var start := if s[0] == '+' then 1 else 0;
    ScanIsExact(s, start, TWO_64 - 1, q);
    ScanIsExact(s, start, TWO_63 - 1, q);
    if s[0] == '-' && |s| > 1 { ScanIsExact(s, 1, TWO_63, q); }
  }

  /** The first characters decide alone: no text, and for unsigned readings a minus sign, are invalid; a sign alone
      wants more. */
  lemma FirstCharacters(s: string)
    ensures UmaxSpec(s) == ERROR_INVAL <==> s == "" || s[0] == '-'
    ensures ImaxSpec(s) == ERROR_INVAL <==> s == ""
    ensures UmaxSpec(s).EXPECT_MORE? <==> s == "+"
    ensures ImaxSpec(s).EXPECT_MORE? <==> s == "+" || s == "-"
    ensures s == "+" ==> UmaxSpec(s) == EXPECT_MORE(1)
    ensures s == "+" || s == "-" ==> ImaxSpec(s) == EXPECT_MORE(1)
  {
    hide Scan, Exact;
    if s != "" {
      var start := if s[0] == '-' || s[0] == '+' then 1 else 0;
      ScanAnswers(s, start, TWO_64 - 1);
      ScanAnswers(s, start, TWO_63 - 1);
      ScanAnswers(s, start, TWO_63);
      assert |s| == 1 && s[0] == '+' ==> s == "+";
      assert |s| == 1 && s[0] == '-' ==> s == "-";
    }
  }

  lemma ScanAnswers(s: string, start: nat, limit: nat)
    requires start <= |s|
    ensures var r := Scan(s, start, 0, limit); r.OK? || r.EXTRA_DATA? || r.ERROR_RANGE?
  {
    hide Scan;
    NoDigits(s, start);
    ScanExact(s, start, start, limit);
  }

  lemma ScanIsExact(s: string, start: nat, limit: nat, q: Strtox)
    requires start <= |s|
    ensures Exact(s, start, limit, q) <==> q == Scan(s, start, 0, limit)
  {
    hide Scan;
    NoDigits(s, start);
    ScanExact(s, start, start, limit);
    if Exact(s, start, limit, q) { ExactIsScan(s, start, limit, q); }
  }

  /** -92233720368547758001 is out of range at its last digit; the machine takes the digit and carries on. */
  lemma OverrunExample()
    ensures Overruns("-92233720368547758001")
    ensures ImaxSpec("-92233720368547758001") == ERROR_RANGE(20)
  {
    var s := "-92233720368547758001";
    Prefixes(s);
    assert OverrunsAt(s, 20);
    OverrunIsRangeError(s, 20);
  }

  lemma Prefixes(s: string)
    requires s == "-92233720368547758001"
    ensures AllDigits(s[1..20]) && Decimal(s[1..20]) == 9223372036854775800
  {
    hide Decimal, AllDigits;
    FirstTen(s, s[1], s[2], s[3], s[4], s[5], s[6], s[7], s[8], s[9], s[10]);
    LastNine(s, s[11], s[12], s[13], s[14], s[15], s[16], s[17], s[18], s[19]);
  }

  lemma FirstTen(s: string, a: char, b: char, c: char, d: char, e: char, f: char, g: char, h: char, i: char, j: char)
    requires |s| == 21 && s[1] == a == '9' && s[2] == b == '2' && s[3] == c == '2' && s[4] == d == '3' && s[5] == e == '3'
    requires s[6] == f == '7' && s[7] == g == '2' && s[8] == h == '0' && s[9] == i == '3' && s[10] == j == '6'
    ensures AllDigits(s[1..11]) && Decimal(s[1..11]) == 9223372036
  {
    hide Decimal, AllDigits;
    NoDigits(s, 1);
    Next(s, 1, 0); Next(s, 2, 9); Next(s, 3, 92); Next(s, 4, 922); Next(s, 5, 9223); Next(s, 6, 92233);
    Next(s, 7, 922337); Next(s, 8, 9223372); Next(s, 9, 92233720); Next(s, 10, 922337203);
  }

  lemma LastNine(s: string, a: char, b: char, c: char, d: char, e: char, f: char, g: char, h: char, i: char)
    requires |s| == 21 && s[11] == a == '8' && s[12] == b == '5' && s[13] == c == '4' && s[14] == d == '7' && s[15] == e == '7'
    requires s[16] == f == '5' && s[17] == g == '8' && s[18] == h == '0' && s[19] == i == '0'
    requires AllDigits(s[1..11]) && Decimal(s[1..11]) == 9223372036
    ensures AllDigits(s[1..20]) && Decimal(s[1..20]) == 9223372036854775800
  {
    hide Decimal, AllDigits;
    Next(s, 11, 9223372036); Next(s, 12, 92233720368); Next(s, 13, 922337203685); Next(s, 14, 9223372036854);
    Next(s, 15, 92233720368547); Next(s, 16, 922337203685477); Next(s, 17, 9223372036854775);
    Next(s, 18, 92233720368547758); Next(s, 19, 922337203685477580);
  }

  /** One digit more after the sign. */
  lemma Next(s: string, i: nat, value: nat)
    requires 1 <= i < |s| && AllDigits(s[1..i]) && Decimal(s[1..i]) == value && IsDigit(s[i])
    ensures AllDigits(s[1..i + 1]) && Decimal(s[1..i + 1]) == value * 10 + DigitValue(s[i])
  {
    DecimalSnoc(s, 1, i);
  }
}
