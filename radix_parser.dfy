/**
  `Num::from_str_radix` as derived for a prime-field type: a numeral in a
  radix from 2 to 36 is read left to right and accumulated by Horner's
  method using only field multiplication and addition.
*/
module RadixParser {
  import opened PrimeField

  /** The kinds of `ParseIntError` the parser reports. */
  datatype ErrorKind = Empty | InvalidDigit

  datatype Result<T> = Ok(value: T) | Err(kind: ErrorKind)

  /** The radixes `char::to_digit` accepts without panicking. */
  predicate IsRadix(radix: nat) {
    2 <= radix <= 36
  }

  /** The value an ASCII digit or letter stands for, whatever the radix. */
  function DigitValue(c: char): (v: Option<nat>)
    ensures v.Some? ==> v.value < 36
  {
    if '0' <= c <= '9' then Some(c as nat - '0' as nat)
    else if 'a' <= c <= 'z' then Some(c as nat - 'a' as nat + 10)
    else if 'A' <= c <= 'Z' then Some(c as nat - 'A' as nat + 10)
    else None
  }

  /** `char::to_digit(radix)`: a digit only if its value is below the radix. */
  function ToDigit(c: char, radix: nat): (d: Option<nat>)
    ensures d.Some? ==> d.value < radix && DigitValue(c) == d
    ensures d.None? ==> DigitValue(c).None? || DigitValue(c).value >= radix
  {
    match DigitValue(c)
    case Some(v) => if v < radix then Some(v) else None
    case None => None
  }

  /** The lower-case character for a digit value. */
  function DigitChar(d: nat): (c: char)
    requires d < 36
    ensures DigitValue(c) == Some(d)
  {
    if d < 10 then ('0' as nat + d) as char else ('a' as nat + d - 10) as char
  }

  /** Every character of `s` is a digit in `radix`. */
  predicate AllDigits(s: string, radix: nat) {
    forall k | 0 <= k < |s| :: ToDigit(s[k], radix).Some?
  }

  /** The integer a digit string denotes in `radix`, most significant digit first. */
  function Value(s: string, radix: nat): nat
    requires AllDigits(s, radix)
    decreases |s|
  {
    if s == [] then 0
    else
      Value(s[..|s| - 1], radix) * radix + ToDigit(s[|s| - 1], radix).value
  }

  /**
    What parsing promises: the empty string is `Empty`; `"0"` is zero; a
    string with a non-digit, or with more than one character and a leading
    zero, is `InvalidDigit`; anything else is its value reduced mod `p`.
  */
  function Parse(s: string, radix: nat, p: nat): (r: Result<nat>)
    requires IsRadix(radix) && p > 1
    ensures r.Ok? ==> r.value < p
    ensures r == Err(Empty) <==> s == []
  {
    if s == [] then Err(Empty)
    else if s == "0" then Ok(ZERO)
    else if !AllDigits(s, radix) || ToDigit(s[0], radix) == Some(0) then Err(InvalidDigit)
    else Ok(FromNat(Value(s, radix), p))
  }

  /** `Value` of a string extended by one digit. */
  lemma {:induction false} ValueSnoc(s: string, c: char, radix: nat)
    requires AllDigits(s, radix) && ToDigit(c, radix).Some?
    ensures AllDigits(s + [c], radix)
    ensures Value(s + [c], radix) == Value(s, radix) * radix + ToDigit(c, radix).value
  {
    assert forall k | 0 <= k < |s| :: (s + [c])[k] == s[k];
    assert (s + [c])[|s|] == c;
    assert (s + [c])[..|s|] == s;
  }

  /** One step of Horner's method, carried out in the field. */
  lemma {:induction false} HornerSnoc(s: string, c: char, radix: nat, p: nat)
    requires AllDigits(s, radix) && ToDigit(c, radix).Some? && p > 1
    ensures AllDigits(s + [c], radix)
    ensures FromNat(Value(s + [c], radix), p)
         == Add(Mul(FromNat(Value(s, radix), p), FromNat(radix, p), p),
                FromNat(ToDigit(c, radix).value, p), p)
  {
    ValueSnoc(s, c, radix);
    var v, d := Value(s, radix), ToDigit(c, radix).value;
    var w := v * radix;
    FromNatMul(v, radix, p);
    FromNatAdd(w, d, p);
  }

  /**
    The scanner. `"0"` is answered without entering the loop; otherwise the
    accumulator starts at zero, and each character is converted to a digit
    (aborting with `InvalidDigit` if it is none), the first digit is checked
    against zero, and the accumulator becomes `acc * radix + digit`.
  */
  method FromStrRadix(s: string, radix: nat, p: nat) returns (res: Result<nat>)
    requires IsRadix(radix) && p > 1
    ensures res == Parse(s, radix, p)
  {
    if s == [] {
      return Err(Empty);
    }
    if s == "0" {
      return Ok(ZERO);
    }
    var acc := ZERO;
    var radixElem := FromNat(radix, p);
    var firstDigit := true;
    for i := 0 to |s|
      invariant firstDigit <==> i == 0
      invariant AllDigits(s[..i], radix)
      invariant i > 0 ==> ToDigit(s[0], radix) != Some(0)
      invariant acc == FromNat(Value(s[..i], radix), p)
    {
      match ToDigit(s[i], radix) {
        case Some(d) =>
          if firstDigit {
            if d == 0 {
              return Err(InvalidDigit);
            }
            firstDigit := false;
          }
          acc := Mul(acc, radixElem, p);
          acc := Add(acc, FromNat(d, p), p);
          assert s[..i + 1] == s[..i] + [s[i]];
          HornerSnoc(s[..i], s[i], radix, p);
        case None =>
          assert !AllDigits(s, radix);
          return Err(InvalidDigit);
      }
    }
    assert s[..|s|] == s;
    return Ok(acc);
  }

  // ---------------------------------------------------------------------
  // Properties of the parser
  // ---------------------------------------------------------------------

  /** The empty string is rejected as `Empty` in every radix. */
  lemma EmptyRejected(radix: nat, p: nat)
    requires IsRadix(radix) && p > 1
    ensures Parse("", radix, p) == Err(Empty)
  {
  }

  /** `"0"` is the additive identity in every radix. */
  lemma ZeroNumeral(radix: nat, p: nat)
    requires IsRadix(radix) && p > 1
    ensures Parse("0", radix, p) == Ok(ZERO)
  {
  }

  /**
    A character that is not a digit in the radix makes the parse fail with
    `InvalidDigit`, whatever precedes or follows it.
  */
  lemma {:induction false} InvalidCharRejected(pre: string, c: char, post: string, radix: nat, p: nat)
    requires IsRadix(radix) && p > 1 && ToDigit(c, radix).None?
    ensures Parse(pre + [c] + post, radix, p) == Err(InvalidDigit)
  {
    var s := pre + [c] + post;
    assert s[|pre|] == c;
    assert !AllDigits(s, radix);
    assert s != "0" by {
      assert ToDigit('0', radix) == Some(0);
    }
  }

  /**
    A numeral of two or more characters that starts with a zero digit is
    rejected with the same `InvalidDigit` as a bad character.
  */
  lemma LeadingZeroRejected(s: string, radix: nat, p: nat)
    requires IsRadix(radix) && p > 1 && |s| >= 2 && s[0] == '0'
    ensures Parse(s, radix, p) == Err(InvalidDigit)
  {
  }

  /**
    Horner's step: appending a digit to a successfully parsed numeral
    other than `"0"` multiplies by the radix and adds the digit, in the field.
    In particular, zeros after the first digit are accepted.
  */
  lemma {:induction false} AppendDigit(s: string, c: char, radix: nat, p: nat)
    requires IsRadix(radix) && p > 1 && s != "0"
    requires Parse(s, radix, p).Ok? && ToDigit(c, radix).Some?
    ensures Parse(s + [c], radix, p)
         == Ok(Add(Mul(Parse(s, radix, p).value, FromNat(radix, p), p),
                   FromNat(ToDigit(c, radix).value, p), p))
  {
    var t := s + [c];
    HornerSnoc(s, c, radix, p);
    assert t[0] == s[0];
    assert |t| >= 2;
  }

  // ---------------------------------------------------------------------
  // Round trip with the canonical base-radix numeral
  // ---------------------------------------------------------------------

  /** The numeral of `v` in `radix`: lower-case digits, no leading zero. */
  function ToBase(v: nat, radix: nat): (s: string)
    requires IsRadix(radix)
    decreases v
    ensures AllDigits(s, radix) && Value(s, radix) == v
    ensures |s| > 0 && (ToDigit(s[0], radix) == Some(0) ==> s == "0")
    ensures v == 0 ==> s == "0"
  {
    if v < radix then
      var c := DigitChar(v);
      assert ToDigit(c, radix) == Some(v);
      assert Value([c], radix) == v by {
        assert [c][..0] == [];
      }
      assert v == 0 ==> c == '0';
      [c]
    else
      var q, m := v / radix, v % radix;
      QuotientBounds(v, radix);
      var hi := ToBase(q, radix);
      var c := DigitChar(m);
      assert ToDigit(c, radix) == Some(m);
      ToBaseStep(hi, c, radix);
      hi + [c]
  }

  /** A numeral without a leading zero stays so when a digit is appended. */
  lemma {:induction false} ToBaseStep(hi: string, c: char, radix: nat)
    requires AllDigits(hi, radix) && ToDigit(c, radix).Some?
    requires |hi| > 0 && hi != "0" && ToDigit(hi[0], radix) != Some(0)
    ensures AllDigits(hi + [c], radix)
    ensures Value(hi + [c], radix) == Value(hi, radix) * radix + ToDigit(c, radix).value
    ensures ToDigit((hi + [c])[0], radix) != Some(0) && |hi + [c]| > 1
  {
    ValueSnoc(hi, c, radix);
    assert (hi + [c])[0] == hi[0];
  }

  lemma QuotientBounds(v: nat, radix: nat)
    requires 2 <= radix <= v
    ensures 0 < v / radix < v
    ensures v == (v / radix) * radix + v % radix
  {
    var q := v / radix;
    assert v == q * radix + v % radix;
    assert q * radix > 0;
    assert q >= 1;
    assert q * radix >= 2 * q;
  }

  /** Parsing the numeral of any natural number gives that number mod `p`. */
  lemma {:induction false} ParseToBase(v: nat, radix: nat, p: nat)
    requires IsRadix(radix) && p > 1
    ensures Parse(ToBase(v, radix), radix, p) == Ok(FromNat(v, p))
  {
    var s := ToBase(v, radix);
    if v > 0 {
      assert s != "0" by {
        assert ToDigit('0', radix) == Some(0);
      }
    }
  }

  /** Concrete numerals: upper-case hex digits and a letter outside radix 16. */
  lemma HexExamples(p: nat)
    requires p > 1
    ensures Parse("1A", 16, p) == Ok(FromNat(26, p))
    ensures Parse("1G", 16, p) == Err(InvalidDigit)
    ensures Parse("01", 16, p) == Err(InvalidDigit)
    ensures Parse("10", 16, p) == Ok(FromNat(16, p))
  {
    assert "1A"[..1] == "1";
    assert "1"[..0] == [];
    assert ToDigit("1G"[1], 16).None?;
    assert "10"[..1] == "1";
  }
}
