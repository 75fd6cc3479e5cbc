/** The benchmark record built from one table row, and the part of
    JavaScript's `Number()` conversion the row parser relies on. */
module Records {
  import opened Wrappers
  import opened Text

  /** A JavaScript number as far as this model needs one: a natural
      number, or `NaN`. */
  datatype JsNumber = Int(n: nat) | NaN

  /** `Number(s)` for the strings a benchmark cell holds: surrounding
      whitespace is ignored, the empty string is 0, a string of decimal
      digits is its value, and everything else is `NaN`. */
  function ToNumber(s: string): (r: JsNumber)
    ensures r.Int? <==> AllDigits(Trim(s))
    ensures Trim(s) == [] ==> r == Int(0)
  {
    var t := Trim(s);
    if AllDigits(t) then Int(DigitsValue(t)) else NaN
  }

  /** Rendering a natural number and converting it back gives the number. */
  lemma ToNumberOfRendering(n: nat)
    ensures ToNumber(NatToString(n)) == Int(n)
  {
    var s := NatToString(n);
    assert AllDigits(s);
    assert !IsSpace(s[0]) && !IsSpace(s[|s| - 1]);
    TrimOfTrimmed(s);
    NatToStringRoundTrip(n);
  }

  /** Only the trimmed text matters. */
  lemma ToNumberTrims(s: string)
    ensures ToNumber(s) == ToNumber(Trim(s))
  {
    TrimOfTrimmed(Trim(s));
  }

  /** A digit string without a leading zero is the rendering of the number
      it converts to. */
  lemma ToNumberOfDigits(t: string)
    requires t != [] && AllDigits(t)
    requires |t| > 1 ==> t[0] != '0'
    ensures ToNumber(t).Int? && NatToString(ToNumber(t).n) == t
  {
    assert !IsSpace(t[0]) && !IsSpace(t[|t| - 1]);
    TrimOfTrimmed(t);
    DigitsRoundTrip(t);
  }

  /** Leading zeros are ignored: "007" converts to 7. */
  lemma ToNumberLeadingZero(t: string)
    requires t != [] && AllDigits(t)
    ensures ToNumber("0" + t) == ToNumber(t)
  {
    var z := "0" + t;
    assert !IsSpace(t[0]) && !IsSpace(t[|t| - 1]);
    assert !IsSpace(z[0]) && z[|z| - 1] == t[|t| - 1];
    TrimOfTrimmed(t);
    TrimOfTrimmed(z);
    DigitsValueLeadingZero(t);
  }

  /** `HardwareRecord`: one row of the benchmark table. `rank`, `value` and
      `price` are `None` where the JavaScript object holds `null`. */
  datatype HardwareRecord = HardwareRecord(
    name: string,
    key: string,
    score: JsNumber,
    rank: Option<nat>,
    value: Option<string>,
    price: Option<string>)
}
