/** std::to_string and strtoll on base ten. */
module Decimal {
  import opened Strings

  const INT64_MIN := -0x8000_0000_0000_0000
  const INT64_MAX := 0x7fff_ffff_ffff_ffff

  predicate IsDigit(c: char) { '0' <= c <= '9' }

  function DigitChar(d: nat): (c: char)
    requires d < 10
    ensures IsDigit(c) && c as int - '0' as int == d
  {
    '0' + d as char
  }

  function Digits(n: nat): (r: string)
    ensures r != "" && forall i :: 0 <= i < |r| ==> IsDigit(r[i])
  {
    if n < 10 then [DigitChar(n)] else Digits(n / 10) + [DigitChar(n % 10)]
  }

  /** `std::to_string` */
  function ToDecimal(n: int): (r: string)
    ensures r != "" && Lacks(r, '"')
  {
    if n < 0 then "-" + Digits(-n) else Digits(n)
  }

  function Value(digits: string): (r: nat)
    requires forall i :: 0 <= i < |digits| ==> IsDigit(digits[i])
  {
    if digits == "" then 0
    else
      assert IsDigit(digits[|digits| - 1]);
      Value(digits[..|digits| - 1]) * 10 + (digits[|digits| - 1] as int - '0' as int)
  }

  function DigitsEnd(s: string, i: nat): (r: nat)
    requires i <= |s|
    ensures i <= r <= |s| && forall j :: i <= j < r ==> IsDigit(s[j])
    ensures r < |s| ==> !IsDigit(s[r])
    decreases |s| - i
  {
    if i < |s| && IsDigit(s[i]) then DigitsEnd(s, i + 1) else i
  }

  function SkipSpace(s: string, i: nat): (r: nat)
    requires i <= |s|
    ensures i <= r <= |s| && forall j :: i <= j < r ==> IsSpace(s[j])
    ensures r < |s| ==> !IsSpace(s[r])
    decreases |s| - i
  {
    if i < |s| && IsSpace(s[i]) then SkipSpace(s, i + 1) else i
  }

  function Clamp(n: int): int {
    if n < INT64_MIN then INT64_MIN else if n > INT64_MAX then INT64_MAX else n
  }

  /** The number whose digits start at `i`. */
  function Magnitude(s: string, i: nat): int
    requires i <= |s|
  {
    var end := DigitsEnd(s, i);
    assert forall j :: 0 <= j < end - i ==> s[i..end][j] == s[i + j];
    Value(s[i..end])
  }

  /** `strtoll(s + i, &end, 10)`: white space, a sign, digits; out of range values clamp. */
  function StrToLL(s: string, i: nat): int
    requires i <= |s|
  {
    var at := SkipSpace(s, i);
    if at < |s| && s[at] == '-' then Clamp(-Magnitude(s, at + 1))
    else if at < |s| && s[at] == '+' then Clamp(Magnitude(s, at + 1))
    else Clamp(Magnitude(s, at))
  }

  lemma {:induction false} ValueOfDigits(n: nat)
    ensures Value(Digits(n)) == n
  {
    if n >= 10 {
      ValueOfDigits(n / 10);
      var r := Digits(n);
      assert r[..|r| - 1] == Digits(n / 10);
    }
  }

  lemma ValueSnoc(digits: string, c: char)
    requires AllDigits(digits) && IsDigit(c)
    ensures Value("") == 0 && AllDigits(digits + [c])
    ensures Value(digits + [c]) == Value(digits) * 10 + (c as int - 48)
  {
    assert (digits + [c])[..|digits|] == digits;
  }

  predicate AllDigits(s: string) { forall i :: 0 <= i < |s| ==> IsDigit(s[i]) }

  /** The shortest spelling of a number: digits without a leading zero, or "0". */
  predicate Shortest(s: string) { AllDigits(s) && s != "" && (s[0] == '0' ==> s == "0") }

  lemma {:induction false} ShortestIsPositive(d: string)
    requires Shortest(d) && d[0] != '0'
    ensures Value(d) > 0
  {
    var n := |d| - 1;
    if n > 0 {
      assert AllDigits(d[..n]);
      ShortestIsPositive(d[..n]);
    }
  }

  /** `std::to_string` writes the shortest spelling, the only one of the number. */
  lemma {:induction false} ToDecimalIsShortest(n: nat, d: string)
    ensures Shortest(ToDecimal(n)) && Value(ToDecimal(n)) == n
    ensures Shortest(d) && Value(d) == n ==> d == ToDecimal(n)
    decreases n
  {
    ValueOfDigits(n);
    if n >= 10 { ToDecimalIsShortest(n / 10, ""); }
    if Shortest(d) && Value(d) == n {
      var k := |d| - 1;
      assert AllDigits(d[..k]) && IsDigit(d[k]);
      if k > 0 {
        ShortestIsPositive(d);
        ShortestIsPositive(d[..k]);
        assert n / 10 == Value(d[..k]) && n % 10 == d[k] as int - 48;
        ToDecimalIsShortest(n / 10, d[..k]);
        assert d == d[..k] + [d[k]];
      }
    }
  }

  lemma ToDecimalNegative(n: int)
    requires n < 0
    ensures ToDecimal(n) == "-" + ToDecimal(-n)
  {}

  /** White space, a sign and digits, and what follows them, split where the readers do. */
  predicate NumberText(spaces: string, sign: string, digits: string, rest: string) {
    && (forall i :: 0 <= i < |spaces| ==> IsSpace(spaces[i]))
    && (sign == "" || sign == "+" || sign == "-") && AllDigits(digits)
    && (rest == "" || !IsDigit(rest[0]))
    && (sign == digits == "" && rest != "" ==> !IsSpace(rest[0]) && rest[0] != '+' && rest[0] != '-')
  }

  function Signed(sign: string, magnitude: int): int { if sign == "-" then -magnitude else magnitude }

  lemma NumberAt(lead: string, spaces: string, sign: string, digits: string, rest: string)
    requires NumberText(spaces, sign, digits, rest)
    ensures var all := lead + (spaces + sign + digits + rest);
            var at := |lead| + |spaces|;
            && SkipSpace(all, |lead|) == at
            && (sign != "" ==> at < |all| && all[at] == sign[0])
            && (sign == "" && at < |all| ==> all[at] != '+' && all[at] != '-')
            && DigitsEnd(all, at + |sign|) == at + |sign| + |digits|
            && Magnitude(all, at + |sign|) == Value(digits)
  {
    hide Value, SkipSpace, DigitsEnd;
    var all := lead + (spaces + sign + digits + rest);
    var at := |lead| + |spaces|;
    var start := at + |sign|;
    var end := start + |digits|;
    TextPlaces(lead, spaces, sign, digits, rest);
    var skipped, e := SkipSpace(all, |lead|), DigitsEnd(all, start);
    assert skipped == at && e == end;
    assert all[start..end] == digits;
  }

  /** What stands where in such a text. */
  lemma TextPlaces(lead: string, spaces: string, sign: string, digits: string, rest: string)
    requires NumberText(spaces, sign, digits, rest)
    ensures var all := lead + (spaces + sign + digits + rest);
            var at := |lead| + |spaces|;
            var start := at + |sign|;
            && |all| == start + |digits| + |rest|
            && (forall j :: |lead| <= j < at ==> IsSpace(all[j]))
            && (at < |all| ==> !IsSpace(all[at]))
            && (sign != "" ==> all[at] == sign[0])
            && (sign == "" && at < |all| ==> all[at] != '+' && all[at] != '-')
            && (forall j :: start <= j < start + |digits| ==> all[j] == digits[j - start] && IsDigit(all[j]))
            && (rest != "" ==> !IsDigit(all[start + |digits|]))
  {
    var all := lead + (spaces + sign + digits + rest);
    var at := |lead| + |spaces|;
    var start := at + |sign|;
    assert forall j :: |lead| <= j < at ==> all[j] == spaces[j - |lead|];
    assert sign != "" ==> all[at] == sign[0];
    assert forall j :: start <= j < start + |digits| ==> all[j] == digits[j - start];
    assert rest != "" ==> all[start + |digits|] == rest[0];
  }

  /** strtoll on any text: the number, clamped to 64 bits, or 0 where no digits stand. */
  lemma StrToLLMeaning(lead: string, spaces: string, sign: string, digits: string, rest: string)
    requires NumberText(spaces, sign, digits, rest)
    ensures var v := Signed(sign, Value(digits));
            StrToLL(lead + (spaces + sign + digits + rest), |lead|)
            == if v < -9223372036854775808 then -9223372036854775808
               else if v > 9223372036854775807 then 9223372036854775807 else v
  {
    hide SkipSpace, DigitsEnd, Magnitude, Value;
    assert sign == "" || sign == "+" || sign == "-";
    hide NumberText;
    NumberAt(lead, spaces, sign, digits, rest);
  }

  lemma DigitsRead(lead: string, n: nat, rest: string)
    requires rest == "" || !IsDigit(rest[0])
    ensures Magnitude(lead + (Digits(n) + rest), |lead|) == n
  {
    var all, d := lead + (Digits(n) + rest), Digits(n);
    var end := |lead| + |d|;
    assert forall j :: |lead| <= j < end ==> all[j] == d[j - |lead|];
    assert rest != "" ==> all[end] == rest[0];
    hide Digits, Value;
    var e := DigitsEnd(all, |lead|);
    assert e == end;
    SliceMiddle(lead, d, rest);
    ValueOfDigits(n);
  }

  /** strtoll reads back what to_string wrote, for every 64-bit number. */
  lemma ReadsBack(lead: string, n: int, rest: string)
    requires INT64_MIN <= n <= INT64_MAX
    requires rest == "" || !IsDigit(rest[0])
    ensures StrToLL(lead + (ToDecimal(n) + rest), |lead|) == n
  {
    hide Digits, Magnitude;
    var all := lead + (ToDecimal(n) + rest);
    assert all[|lead|] == ToDecimal(n)[0];
    assert SkipSpace(all, |lead|) == |lead|;
    if n < 0 {
      assert all == (lead + "-") + (Digits(-n) + rest);
      DigitsRead(lead + "-", -n, rest);
    } else {
      DigitsRead(lead, n, rest);
    }
  }
}
