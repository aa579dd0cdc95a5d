/**
 * `Convert.ToInt32(string)`, which is `Int32.Parse` with the integer number
 * style: optional leading and trailing white space, an optional sign, at least
 * one decimal digit; trailing NUL characters after the trailing white space
 * are tolerated as well. Text of that shape whose value lies outside Int32
 * overflows; any other text is a format error, and a format error takes
 * precedence over an overflow.
 */
module Int32Text {
  import opened Results

  const INT32_MIN: int := -0x8000_0000
  const INT32_MAX: int := 0x7FFF_FFFF

  newtype int32 = x: int | INT32_MIN <= x <= INT32_MAX

  predicate InInt32(n: int) { INT32_MIN <= n <= INT32_MAX }

  /** The white space the number parser skips: space and U+0009 to U+000D. */
  predicate IsWhite(c: char) { c == ' ' || '\t' <= c <= '\r' }

  predicate IsDigit(c: char) { '0' <= c <= '9' }

  predicate AllDigits(s: string) { forall i :: 0 <= i < |s| ==> IsDigit(s[i]) }

  predicate AllWhite(s: string) { forall i :: 0 <= i < |s| ==> IsWhite(s[i]) }

  predicate AllNuls(s: string) { forall i :: 0 <= i < |s| ==> s[i] == '\0' }

  function TrimLeadingWhite(s: string): string
  {
    if |s| > 0 && IsWhite(s[0]) then TrimLeadingWhite(s[1..]) else s
  }

  function TrimTrailingWhite(s: string): string
  {
    if |s| > 0 && IsWhite(s[|s| - 1]) then TrimTrailingWhite(s[..|s| - 1]) else s
  }

  function TrimTrailingNuls(s: string): string
  {
    if |s| > 0 && s[|s| - 1] == '\0' then TrimTrailingNuls(s[..|s| - 1]) else s
  }

  /** Trimming the front leaves a suffix that does not start with white space, after white space only. */
  lemma {:induction false} LeadingWhiteSplit(s: string)
    ensures var t := TrimLeadingWhite(s);
      |t| <= |s| && t == s[|s| - |t|..] && AllWhite(s[..|s| - |t|]) && (|t| > 0 ==> !IsWhite(t[0]))
  {
    if |s| > 0 && IsWhite(s[0]) {
      var rest := s[1..];
      var t := TrimLeadingWhite(rest);
      LeadingWhiteSplit(rest);
      assert t == s[|s| - |t|..];
      assert s[..|s| - |t|] == [s[0]] + rest[..|rest| - |t|];
    }
  }

  /** Trimming the end leaves a prefix that does not end in white space, before white space only. */
  lemma {:induction false} TrailingWhiteSplit(s: string)
    ensures var t := TrimTrailingWhite(s);
      |t| <= |s| && t == s[..|t|] && AllWhite(s[|t|..]) && (|t| > 0 ==> !IsWhite(t[|t| - 1]))
  {
    if |s| > 0 && IsWhite(s[|s| - 1]) {
      var init := s[..|s| - 1];
      var t := TrimTrailingWhite(init);
      TrailingWhiteSplit(init);
      assert t == s[..|t|];
      assert s[|t|..] == init[|t|..] + [s[|s| - 1]];
    }
  }

  /** Trimming the NULs leaves a prefix that does not end in a NUL, before NULs only. */
  lemma {:induction false} TrailingNulsSplit(s: string)
    ensures var t := TrimTrailingNuls(s);
      |t| <= |s| && t == s[..|t|] && AllNuls(s[|t|..]) && (|t| > 0 ==> t[|t| - 1] != '\0')
  {
    if |s| > 0 && s[|s| - 1] == '\0' {
      var init := s[..|s| - 1];
      var t := TrimTrailingNuls(init);
      TrailingNulsSplit(init);
      assert t == s[..|t|];
      assert s[|t|..] == init[|t|..] + [s[|s| - 1]];
    }
  }

  function DigitValue(c: char): nat
    requires IsDigit(c)
  {
    c as int - '0' as int
  }

  /** The value of a string of decimal digits, most significant first. */
  function DigitsValue(ds: string): nat
    requires AllDigits(ds)
  {
    if ds == [] then 0
    else 10 * DigitsValue(ds[..|ds| - 1]) + DigitValue(ds[|ds| - 1])
  }

  /** `Convert.ToInt32(s)` for a non-null `s`. */
  function ToInt32(s: string): (r: Result<int32>)
    ensures r.Err? ==> r.error != IndexOutOfRangeException
  {
    SignedInt32(TrimLeadingWhite(TrimTrailingWhite(TrimTrailingNuls(s))))
  }

  /** The number left once the white space and NULs are trimmed: an optional sign, then digits only. */
  function SignedInt32(body: string): (r: Result<int32>)
    ensures r.Err? ==> r.error != IndexOutOfRangeException
  {
    var negative := |body| > 0 && body[0] == '-';
    var digits := if |body| > 0 && (body[0] == '-' || body[0] == '+') then body[1..] else body;
    if |digits| == 0 || !AllDigits(digits) then Err(FormatException)
    else
      var magnitude: int := DigitsValue(digits);
      var v := if negative then -magnitude else magnitude;
      if InInt32(v) then Ok(v as int32) else Err(OverflowException)
  }

  /** The decimal digits of `n`, without leading zeros. */
  function Digits(n: nat): (ds: string)
    ensures |ds| >= 1 && AllDigits(ds)
    ensures DigitsValue(ds) == n
    ensures n > 0 ==> ds[0] != '0'
  {
    var last := ['0' + (n % 10) as char];
    if n < 10 then last
    else
      var ds := Digits(n / 10) + last;
      assert ds[..|ds| - 1] == Digits(n / 10);
      ds
  }

  /** `n.ToString()`: an optional minus sign followed by the digits of |n|. */
  function Decimal(n: int): string
  {
    if n < 0 then "-" + Digits(-n) else Digits(n)
  }

  /** The trims leave the decimal form of an integer untouched. */
  lemma DecimalIsTrimmed(n: int)
    ensures TrimLeadingWhite(TrimTrailingWhite(TrimTrailingNuls(Decimal(n)))) == Decimal(n)
  {
    var d := Decimal(n);
    assert IsDigit(d[|d| - 1]);
    assert d[0] == '-' || IsDigit(d[0]);
  }

  /** The decimal form of every Int32 converts back to that value. */
  lemma DecimalRoundTrip(n: int32)
    ensures ToInt32(Decimal(n as int)) == Ok(n)
  {
    DecimalIsTrimmed(n as int);
    if n < 0 {
      assert Decimal(n as int)[1..] == Digits(-(n as int));
    }
  }

  /** The decimal form of an integer outside Int32 overflows. */
  lemma DecimalOverflow(n: int)
    requires !InInt32(n)
    ensures ToInt32(Decimal(n)) == Err(OverflowException)
  {
    DecimalIsTrimmed(n);
    if n < 0 {
      assert Decimal(n)[1..] == Digits(-n);
    }
  }

  /**
   * Text of the integer number style taken apart: leading white space, an
   * optional sign, one or more decimal digits, trailing white space, and
   * trailing NULs.
   */
  datatype NumberText = NumberText(lead: string, sign: string, digits: string, trail: string, nuls: string)

  predicate WellFormed(t: NumberText)
  {
    AllWhite(t.lead) && (t.sign == "" || t.sign == "+" || t.sign == "-") &&
    |t.digits| > 0 && AllDigits(t.digits) && AllWhite(t.trail) && AllNuls(t.nuls)
  }

  function Render(t: NumberText): string
  {
    t.lead + t.sign + t.digits + t.trail + t.nuls
  }

  /** The integer a well-formed text denotes: the digits' value, negated after a minus sign. */
  function ValueOf(t: NumberText): int
    requires WellFormed(t)
  {
    if t.sign == "-" then -(DigitsValue(t.digits) as int) else DigitsValue(t.digits)
  }

  /** Every well-formed text converts to its value, or overflows when that value is outside Int32. */
  lemma WellFormedConverts(t: NumberText)
    requires WellFormed(t)
    ensures ToInt32(Render(t)) == if InInt32(ValueOf(t)) then Ok(ValueOf(t) as int32) else Err(OverflowException)
  {
    TrimsLeaveNumber(t);
    SignedDigitsConvert(t);
  }

  lemma SignedDigitsConvert(t: NumberText)
    requires WellFormed(t)
    ensures SignedInt32(t.sign + t.digits) == if InInt32(ValueOf(t)) then Ok(ValueOf(t) as int32) else Err(OverflowException)
  {
    var number := t.sign + t.digits;
    if t.sign == "" {
      assert number == t.digits;
    } else {
      assert number[0] == t.sign[0];
      assert number[1..] == t.digits;
    }
  }

  /** The trims strip exactly the white space and the NULs of a well-formed text. */
  lemma TrimsLeaveNumber(t: NumberText)
    requires WellFormed(t)
    ensures TrimLeadingWhite(TrimTrailingWhite(TrimTrailingNuls(Render(t)))) == t.sign + t.digits
  {
    var number := t.sign + t.digits;
    var core := t.lead + number + t.trail;
    assert Render(t) == core + t.nuls;
    var last := t.digits[|t.digits| - 1];
    assert IsDigit(last);
    assert (t.lead + number)[|t.lead + number| - 1] == last;
    assert core[|core| - 1] != '\0' by {
      if t.trail != [] {
        assert core[|core| - 1] == t.trail[|t.trail| - 1];
      } else {
        assert core == t.lead + number;
      }
    }
    TrailingNulsTrimmed(core, t.nuls);
    TrailingWhiteTrimmed(t.lead + number, t.trail);
    assert number[0] == if t.sign == "" then t.digits[0] else t.sign[0];
    LeadingWhiteTrimmed(t.lead, number);
  }

  /**
   * `Convert.ToInt32` exactly: it succeeds on the well-formed texts whose value
   * is in Int32, with that value; it overflows on the well-formed texts whose
   * value is not; and every other text is a format error.
   */
  lemma ToInt32Characterised(s: string)
    ensures ToInt32(s).Ok? <==> exists t :: WellFormed(t) && Render(t) == s && InInt32(ValueOf(t))
    ensures ToInt32(s).Ok? ==> forall t :: WellFormed(t) && Render(t) == s ==> ValueOf(t) == ToInt32(s).value as int
    ensures ToInt32(s) == Err(OverflowException) <==> exists t :: WellFormed(t) && Render(t) == s && !InInt32(ValueOf(t))
    ensures ToInt32(s) == Err(FormatException) <==> forall t :: WellFormed(t) ==> Render(t) != s
  {
    forall t | WellFormed(t) && Render(t) == s
      ensures ToInt32(s) == if InInt32(ValueOf(t)) then Ok(ValueOf(t) as int32) else Err(OverflowException)
    {
      WellFormedConverts(t);
    }
    if ToInt32(s) != Err(FormatException) {
      AcceptedIsWellFormed(s);
    }
  }

  /** Every text the conversion does not reject as malformed is a well-formed text. */
  lemma AcceptedIsWellFormed(s: string)
    requires ToInt32(s) != Err(FormatException)
    ensures exists t :: WellFormed(t) && Render(t) == s
  {
    var body := TrimLeadingWhite(TrimTrailingWhite(TrimTrailingNuls(s)));
    assert SignedInt32(body) == ToInt32(s);
    var number := SignAndDigits(body);
    var lead, trail, nuls := TrimmedParts(s);
    var t := NumberText(lead, number.sign, number.digits, trail, nuls);
    assert WellFormed(t);
    assert lead + number.sign + number.digits == lead + body;
    assert Render(t) == s;
  }

  /** What the trims strip: white space in front, then white space and NULs at the end. */
  lemma TrimmedParts(s: string) returns (lead: string, trail: string, nuls: string)
    ensures AllWhite(lead) && AllWhite(trail) && AllNuls(nuls)
    ensures s == lead + TrimLeadingWhite(TrimTrailingWhite(TrimTrailingNuls(s))) + trail + nuls
  {
    var trimmedNuls := TrimTrailingNuls(s);
    var trimmed := TrimTrailingWhite(trimmedNuls);
    var body := TrimLeadingWhite(trimmed);
    TrailingNulsSplit(s);
    TrailingWhiteSplit(trimmedNuls);
    LeadingWhiteSplit(trimmed);
    lead, trail, nuls := trimmed[..|trimmed| - |body|], trimmedNuls[|trimmed|..], s[|trimmedNuls|..];
    PrefixThenRest(trimmedNuls, s);
    PrefixThenRest(trimmed, trimmedNuls);
    PrefixThenRest(lead, trimmed);
  }

  lemma PrefixThenRest(t: string, s: string)
    requires |t| <= |s| && t == s[..|t|]
    ensures t + s[|t|..] == s
  {
  }

  /** The sign and the digits of a number the conversion accepts once trimmed. */
  function SignAndDigits(body: string): (t: NumberText)
    requires SignedInt32(body) != Err(FormatException)
    ensures t.sign + t.digits == body
    ensures (t.sign == "" || t.sign == "+" || t.sign == "-") && |t.digits| > 0 && AllDigits(t.digits)
  {
    if |body| > 0 && (body[0] == '-' || body[0] == '+') then
      assert body[..1] + body[1..] == body;
      NumberText("", body[..1], body[1..], "", "")
    else NumberText("", "", body, "", "")
  }

  /** A `+` sign does not change the conversion. */
  lemma PlusSignIgnored(t: NumberText)
    requires WellFormed(t) && t.sign == "+"
    ensures ToInt32(Render(t)) == ToInt32(Render(t.(sign := "")))
  {
    WellFormedConverts(t);
    WellFormedConverts(t.(sign := ""));
  }

  /** A leading zero does not change the conversion. */
  lemma LeadingZeroIgnored(t: NumberText)
    requires WellFormed(t)
    ensures ToInt32(Render(t.(digits := "0" + t.digits))) == ToInt32(Render(t))
  {
    LeadingZeroValue(t.digits);
    WellFormedConverts(t);
    WellFormedConverts(t.(digits := "0" + t.digits));
  }

  lemma {:induction false} LeadingZeroValue(ds: string)
    requires AllDigits(ds)
    ensures DigitsValue("0" + ds) == DigitsValue(ds)
  {
    if ds != [] {
      assert ("0" + ds)[..|ds|] == "0" + ds[..|ds| - 1];
      LeadingZeroValue(ds[..|ds| - 1]);
    } else {
      assert ("0" + ds)[..0] == [];
    }
  }

  /** Neither a decimal point nor a trailing letter is part of an integer. */
  lemma NotIntegers()
    ensures ToInt32("4.5") == Err(FormatException)
    ensures ToInt32("12a") == Err(FormatException)
  {
    assert !IsDigit("4.5"[1]);
    assert !IsDigit("12a"[2]);
  }

  lemma {:induction false} TrailingNulsTrimmed(s: string, nuls: string)
    requires AllNuls(nuls)
    requires |s| > 0 && s[|s| - 1] != '\0'
    ensures TrimTrailingNuls(s + nuls) == s
  {
    if nuls != [] {
      var t := s + nuls;
      assert t[..|t| - 1] == s + nuls[..|nuls| - 1];
      TrailingNulsTrimmed(s, nuls[..|nuls| - 1]);
    } else {
      assert s + nuls == s;
    }
  }

  /** White space around the number does not change the conversion. */
  lemma SurroundingWhiteIgnored(lead: string, s: string, trail: string)
    requires AllWhite(lead) && AllWhite(trail)
    requires |s| > 0 && !IsWhite(s[0]) && !IsWhite(s[|s| - 1]) && s[|s| - 1] != '\0'
    ensures ToInt32(lead + s + trail) == ToInt32(s)
  {
    var padded := lead + s + trail;
    assert padded[|padded| - 1] != '\0';
    TrailingWhiteTrimmed(lead + s, trail);
    LeadingWhiteTrimmed(lead, s);
    assert TrimTrailingNuls(s) == s && TrimTrailingWhite(s) == s && TrimLeadingWhite(s) == s;
  }

  lemma {:induction false} TrailingWhiteTrimmed(s: string, trail: string)
    requires AllWhite(trail)
    requires |s| > 0 && !IsWhite(s[|s| - 1])
    ensures TrimTrailingWhite(s + trail) == s
  {
    if trail != [] {
      var t := s + trail;
      assert t[..|t| - 1] == s + trail[..|trail| - 1];
      TrailingWhiteTrimmed(s, trail[..|trail| - 1]);
    }
  }

  lemma {:induction false} LeadingWhiteTrimmed(lead: string, s: string)
    requires AllWhite(lead)
    requires |s| > 0 && !IsWhite(s[0])
    ensures TrimLeadingWhite(lead + s) == s
  {
    if lead != [] {
      assert (lead + s)[1..] == lead[1..] + s;
      LeadingWhiteTrimmed(lead[1..], s);
    } else {
      assert lead + s == s;
    }
  }

  /** Text with no digit at all, the empty string included, is a format error. */
  lemma NoDigitIsFormatError(s: string)
    requires forall i :: 0 <= i < |s| ==> !IsDigit(s[i])
    ensures ToInt32(s) == Err(FormatException)
  {
    var t := TrimTrailingNuls(s);
    TrimsAreInfixes(s);
    var body := TrimLeadingWhite(TrimTrailingWhite(t));
    var digits := if |body| > 0 && (body[0] == '-' || body[0] == '+') then body[1..] else body;
    if |digits| > 0 {
      assert digits[0] in s;
    }
  }

  /** Every character the trims keep comes from the input. */
  lemma TrimsAreInfixes(s: string)
    ensures forall c :: c in TrimLeadingWhite(TrimTrailingWhite(TrimTrailingNuls(s))) ==> c in s
  {
    InfixOfNuls(s);
    InfixOfTrailing(TrimTrailingNuls(s));
    InfixOfLeading(TrimTrailingWhite(TrimTrailingNuls(s)));
  }

  lemma {:induction false} InfixOfNuls(s: string)
    ensures forall c :: c in TrimTrailingNuls(s) ==> c in s
  {
    if |s| > 0 && s[|s| - 1] == '\0' {
      InfixOfNuls(s[..|s| - 1]);
    }
  }

  lemma {:induction false} InfixOfTrailing(s: string)
    ensures forall c :: c in TrimTrailingWhite(s) ==> c in s
  {
    if |s| > 0 && IsWhite(s[|s| - 1]) {
      InfixOfTrailing(s[..|s| - 1]);
    }
  }

  lemma {:induction false} InfixOfLeading(s: string)
    ensures forall c :: c in TrimLeadingWhite(s) ==> c in s
  {
    if |s| > 0 && IsWhite(s[0]) {
      InfixOfLeading(s[1..]);
    }
  }
}
