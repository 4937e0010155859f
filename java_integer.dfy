/** `Integer.valueOf(String)` as the service uses it to turn a path id into
    a 32-bit key, and `Integer.toString` as its inverse. */
module JavaInteger {
  import opened Wrappers

  const MinValue: int := -0x8000_0000
  const MaxValue: int := 0x7fff_ffff

  predicate InRange(n: int) {
    MinValue <= n <= MaxValue
  }

  predicate IsDigit(c: char) {
    '0' <= c <= '9'
  }

  predicate AllDigits(s: string) {
    forall i :: 0 <= i < |s| ==> IsDigit(s[i])
  }

  predicate IsSign(c: char) {
    c == '-' || c == '+'
  }

  /** The decimal value of a digit string, most significant digit first. */
  function DigitsValue(s: string): nat
    requires AllDigits(s)
  {
    if s == [] then 0 else DigitsValue(s[..|s| - 1]) * 10 + (s[|s| - 1] as int - '0' as int)
  }

  /** The digits after an optional leading sign. */
  function Digits(s: string): string
    requires |s| > 0
  {
    if IsSign(s[0]) then s[1..] else s
  }

  /** An optional sign followed by one or more ASCII decimal digits. */
  predicate WellFormed(s: string) {
    |s| > 0 && Digits(s) != [] && AllDigits(Digits(s))
  }

  /** The mathematical value of a well-formed numeral, of any size. */
  function SignedValue(s: string): int
    requires WellFormed(s)
  {
    var magnitude: int := DigitsValue(Digits(s));
    if s[0] == '-' then -magnitude else magnitude
  }

  /** Parses an optional sign followed by one or more decimal digits; fails
      (NumberFormatException) on the empty string, a lone sign, any other
      character, or a value outside the 32-bit range. */
  function ValueOf(s: string): (r: Option<int>)
    ensures r.Some? <==> WellFormed(s) && InRange(SignedValue(s))
    ensures r.Some? ==> r.value == SignedValue(s)
    ensures r.Some? ==> InRange(r.value)
    ensures r.Some? ==> |s| > 0 && AllDigits(s[1..]) && (IsDigit(s[0]) || (IsSign(s[0]) && |s| > 1))
    ensures r.Some? && r.value < 0 ==> s[0] == '-'
  {
    if s == [] then None
    else
      var digits := if IsSign(s[0]) then s[1..] else s;
      if digits == [] || !AllDigits(digits) then None
      else
        var magnitude: int := DigitsValue(digits);
        var v := if s[0] == '-' then -magnitude else magnitude;
        if InRange(v) then Some(v) else None
  }

  lemma DigitsValueSnoc(s: string, c: char)
    requires AllDigits(s) && IsDigit(c)
    ensures AllDigits(s + [c]) && DigitsValue(s + [c]) == DigitsValue(s) * 10 + (c as int - '0' as int)
  {
    assert (s + [c])[..|s|] == s;
  }

  /** The value of the numeral 2^31. */
  lemma TwoToThe31()
    ensures AllDigits("2147483648") && DigitsValue("2147483648") == MaxValue + 1
  {
    assert DigitsValue("2") == 2;
    assert DigitsValue("21") == 21 by {
      DigitsValueSnoc("2", '1');
      assert "21" == "2" + ['1'];
    }
    assert DigitsValue("214") == 214 by {
      DigitsValueSnoc("21", '4');
      assert "214" == "21" + ['4'];
    }
    assert DigitsValue("2147") == 2147 by {
      DigitsValueSnoc("214", '7');
      assert "2147" == "214" + ['7'];
    }
    assert DigitsValue("21474") == 21474 by {
      DigitsValueSnoc("2147", '4');
      assert "21474" == "2147" + ['4'];
    }
    assert DigitsValue("214748") == 214748 by {
      DigitsValueSnoc("21474", '8');
      assert "214748" == "21474" + ['8'];
    }
    assert DigitsValue("2147483") == 2147483 by {
      DigitsValueSnoc("214748", '3');
      assert "2147483" == "214748" + ['3'];
    }
    assert DigitsValue("21474836") == 21474836 by {
      DigitsValueSnoc("2147483", '6');
      assert "21474836" == "2147483" + ['6'];
    }
    assert DigitsValue("214748364") == 214748364 by {
      DigitsValueSnoc("21474836", '4');
      assert "214748364" == "21474836" + ['4'];
    }
    assert DigitsValue("2147483648") == 2147483648 by {
      DigitsValueSnoc("214748364", '8');
      assert "2147483648" == "214748364" + ['8'];
    }
  }

  /** A numeral one past the 32-bit range is rejected, while the smallest
      32-bit value is accepted. */
  lemma OverflowRejected()
    ensures ValueOf("2147483648") == None
    ensures ValueOf("-2147483648") == Some(MinValue)
  {
    TwoToThe31();
    assert Digits("2147483648") == "2147483648";
    assert Digits("-2147483648") == "2147483648";
  }

  function NatToString(n: nat): (s: string)
    ensures |s| > 0 && AllDigits(s)
  {
    var d := ['0' + (n % 10) as char];
    if n < 10 then d else NatToString(n / 10) + d
  }

  /** Integer.toString: a minus sign for negatives, no leading zeros. */
  function ToString(n: int): string {
    if n < 0 then "-" + NatToString(-n) else NatToString(n)
  }

  lemma {:induction false} DigitsValueOfNatToString(n: nat)
    ensures DigitsValue(NatToString(n)) == n
  {
    var s := NatToString(n);
    if n >= 10 {
      assert s[..|s| - 1] == NatToString(n / 10);
      DigitsValueOfNatToString(n / 10);
    }
  }

  /** Every 32-bit integer is read back from its decimal text. */
  lemma ValueOfToString(n: int)
    requires InRange(n)
    ensures ValueOf(ToString(n)) == Some(n)
  {
    var s := ToString(n);
    if n < 0 {
      assert s[1..] == NatToString(-n);
      DigitsValueOfNatToString(-n);
    } else {
      DigitsValueOfNatToString(n);
    }
  }

  lemma {:induction false} DigitsValueLeadingZero(s: string)
    requires AllDigits(s)
    ensures AllDigits("0" + s) && DigitsValue("0" + s) == DigitsValue(s)
  {
    var z := "0" + s;
    if s != [] {
      assert z[..|z| - 1] == "0" + s[..|s| - 1];
      DigitsValueLeadingZero(s[..|s| - 1]);
    }
  }

  /** Leading zeros are ignored, so distinct path ids such as "01" and "1"
      denote the same key. */
  lemma LeadingZeroIgnored(s: string)
    requires s != [] && AllDigits(s)
    ensures ValueOf("0" + s) == ValueOf(s)
  {
    DigitsValueLeadingZero(s);
  }
}
