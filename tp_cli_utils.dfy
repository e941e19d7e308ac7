/**
 * The command-line validator `non_negative_int`: the argument is converted
 * with Python's `int()` and refused (ValueError) when negative.
 *
 * `int()` of a string is modelled for ASCII digits: surrounding whitespace
 * is stripped, one optional sign is allowed, and single underscores may
 * separate digits.
 */
module TpCliUtils {
  import opened TpExceptions
  import opened PyText

  predicate IsDigit(c: char) {
    '0' <= c <= '9'
  }

  /** The string without its leading whitespace. */
  function StripLeft(s: string): (t: string)
    ensures |t| <= |s| && t == s[|s| - |t|..]
    ensures t == [] || !IsSpace(t[0])
    ensures forall i :: 0 <= i < |s| - |t| ==> IsSpace(s[i])
  {
    if s != [] && IsSpace(s[0]) then StripLeft(s[1..]) else s
  }

  /** The string without its trailing whitespace. */
  function StripRight(s: string): (t: string)
    ensures |t| <= |s| && t == s[..|t|]
    ensures t == [] || !IsSpace(t[|t| - 1])
    ensures forall i :: |t| <= i < |s| ==> IsSpace(s[i])
  {
    if s != [] && IsSpace(s[|s| - 1]) then StripRight(s[..|s| - 1]) else s
  }

  /** Digits, with single underscores between them. */
  predicate Digits(b: string) {
    && |b| > 0
    && IsDigit(b[0])
    && IsDigit(b[|b| - 1])
    && (forall i :: 0 <= i < |b| ==> IsDigit(b[i]) || b[i] == '_')
    && (forall i :: 0 <= i < |b| - 1 && b[i] == '_' ==> IsDigit(b[i + 1]))
  }

  /** The number the digits spell, underscores ignored. */
  function Value(b: string): nat
    decreases |b|
  {
    if b == [] then 0
    else
      var last := b[|b| - 1];
      var init := Value(b[..|b| - 1]);
      if IsDigit(last) then init * 10 + (last as int - '0' as int) else init
  }

  /** `int()` of the stripped text: an optional sign, then digits. */
  function ParseStripped(t: string): (r: Result<int>)
    ensures r.Err? ==> r.error == ValueError
  {
    var neg := |t| > 0 && t[0] == '-';
    var body := if |t| > 0 && (t[0] == '-' || t[0] == '+') then t[1..] else t;
    var v: int := Value(body);
    if !Digits(body) then Err(ValueError)
    else if neg then Ok(-v)
    else Ok(v)
  }

  /** `int(arg)`: ValueError unless, once stripped, the text is an
      optional sign followed by digits. */
  function ParseInt(arg: string): (r: Result<int>)
    ensures r.Err? ==> r.error == ValueError
  {
    ParseStripped(StripLeft(StripRight(arg)))
  }

  /** `non_negative_int`: the parsed value, or ValueError when it cannot be
      parsed or is below zero. */
  function NonNegativeInt(arg: string): (r: Result<int>)
    ensures r.Ok? ==> r.value >= 0
    ensures r.Ok? <==> ParseInt(arg).Ok? && ParseInt(arg).value >= 0
    ensures r.Ok? ==> r.value == ParseInt(arg).value
    ensures r.Err? ==> r.error == ValueError
  {
    match ParseInt(arg)
    case Err(e) => Err(e)
    case Ok(intArg) => if intArg < 0 then Err(ValueError) else Ok(intArg)
  }

  /** `str(n)`: the decimal digits of a natural number. */
  function Decimal(n: nat): (s: string)
    ensures |s| > 0 && forall i :: 0 <= i < |s| ==> IsDigit(s[i])
    decreases n
  {
    if n < 10 then [('0' as int + n) as char]
    else Decimal(n / 10) + [('0' as int + n % 10) as char]
  }

  /** The digits of `n` spell `n`. */
  lemma {:induction false} DecimalValue(n: nat)
    ensures Value(Decimal(n)) == n
    decreases n
  {
    if n >= 10 {
      DecimalValue(n / 10);
      var d := Decimal(n);
      assert d[..|d| - 1] == Decimal(n / 10);
    } else {
      assert Decimal(n)[..0] == [];
    }
  }

  /** Text without whitespace is left alone by stripping. */
  lemma StripNoSpace(s: string)
    requires forall i :: 0 <= i < |s| ==> !IsSpace(s[i])
    ensures StripLeft(StripRight(s)) == s
  {
  }

  /** A natural number printed in decimal is accepted and read back. */
  lemma NonNegativeIntDecimal(n: nat)
    ensures NonNegativeInt(Decimal(n)) == Ok(n)
  {
    var d := Decimal(n);
    assert ParseInt(d) == ParseStripped(d) by {
      StripNoSpace(d);
    }
    assert ParseStripped(d) == Ok(n) by {
      assert IsDigit(d[0]);
      assert Value(d) == n by {
        DecimalValue(n);
      }
      assert Digits(d);
    }
  }

  /** A negative number printed in decimal is refused; "-0" is zero and is
      accepted. */
  lemma NonNegativeIntNegative(n: nat)
    ensures NonNegativeInt("-" + Decimal(n)) == if n == 0 then Ok(0) else Err(ValueError)
  {
    var d := Decimal(n);
    var s := "-" + d;
    assert s[0] == '-' && s[1..] == d;
    assert ParseInt(s) == ParseStripped(s) by {
      assert forall i :: 1 <= i < |s| ==> s[i] == d[i - 1];
      StripNoSpace(s);
    }
    assert ParseStripped(s) == Ok(-(n as int)) by {
      DecimalValue(n);
      assert Digits(d);
    }
  }

  /** The unit-test examples: "-1" is refused, "0" and "1" are returned. */
  lemma NonNegativeIntExamples()
    ensures NonNegativeInt("-1") == Err(ValueError)
    ensures NonNegativeInt("0") == Ok(0)
    ensures NonNegativeInt("1") == Ok(1)
  {
    NonNegativeIntNegative(1);
    assert Decimal(1) == "1";
    assert "-" + "1" == "-1";
    NonNegativeIntDecimal(0);
    assert Decimal(0) == "0";
    NonNegativeIntDecimal(1);
  }
}
