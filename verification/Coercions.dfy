/** Which value a column of each type reads a constant as, and which constants it rejects. */
module Coercions {
  import opened Types
  import opened Decimal
  import opened Text
  import opened Filters

  // ---- numerals ----

  function Power10(n: nat): (p: nat)
    ensures p > 0
  {
    if n == 0 then 1 else 10 * Power10(n - 1)
  }

  /** The positional value of a numeral. */
  function Positional(digits: string): int
    requires AllDigits(digits)
  {
    if digits == [] then 0
    else (digits[0] as int - '0' as int) * Power10(|digits| - 1) + Positional(digits[1..])
  }

  lemma {:induction false} PositionalAppend(digits: string, c: char)
    requires AllDigits(digits) && IsDigit(c)
    ensures Positional(digits + [c]) == 10 * Positional(digits) + DigitValue(c)
  {
    var longer := digits + [c];
    if digits == [] {
      assert longer[1..] == [];
    } else {
      PositionalAppend(digits[1..], c);
      assert longer[1..] == digits[1..] + [c];
      var d, p := digits[0] as int - '0' as int, Power10(|digits| - 1);
      assert d * (10 * p) == 10 * (d * p);
    }
  }

  lemma {:induction false} PositionalIsValue(digits: string)
    requires AllDigits(digits)
    ensures Positional(digits) == DigitsValue(digits)
  {
    if digits != [] {
      var n := |digits| - 1;
      PositionalIsValue(digits[..n]);
      PositionalAppend(digits[..n], digits[n]);
      assert digits == digits[..n] + [digits[n]];
    }
  }

  predicate IsNumeral(digits: string) {
    digits != [] && AllDigits(digits)
  }

  /** A numeral with an optional sign spells its positional value, or the opposite of it. */
  ghost predicate Spells(s: string, n: int) {
    exists digits :: IsNumeral(digits) && SpellsWith(s, n, digits)
  }

  predicate SpellsWith(s: string, n: int, digits: string)
    requires IsNumeral(digits)
  {
    || (s in {digits, "+" + digits} && n == Positional(digits))
    || (s == "-" + digits && n == 0 - Positional(digits))
  }

  /** The numeral without a leading zero, after a minus sign for a negative number. */
  ghost predicate Prints(s: string, n: int) {
    exists digits :: IsNumeral(digits) && PrintsWith(s, n, digits)
  }

  predicate PrintsWith(s: string, n: int, digits: string)
    requires IsNumeral(digits)
  {
    && (digits[0] != '0' || digits == "0")
    && if n < 0 then s == "-" + digits && n == 0 - Positional(digits) else s == digits && n == Positional(digits)
  }

  lemma ParsedIsSpelled(s: string, n: I64)
    ensures ParseI64(s) == Some(n) <==> Spells(s, n)
  {
    if ParseI64(s) == Some(n) {
      var digits := if s[0] == '-' || s[0] == '+' then s[1..] else s;
      PositionalIsValue(digits);
      assert s == [s[0]] + s[1..];
      assert SpellsWith(s, n, digits);
    }
    if digits :| IsNumeral(digits) && SpellsWith(s, n, digits) {
      PositionalIsValue(digits);
      assert IsDigit(digits[0]);
      assert s != digits ==> s[1..] == digits;
    }
  }

  lemma {:induction false} CanonicalNumeral(n: nat)
    ensures NatToString(n)[0] != '0' || n == 0
  {
    if n >= 10 {
      CanonicalNumeral(n / 10);
    } else {
      assert DigitValue(DigitChar(n)) == n;
    }
  }

  lemma {:induction false} NumeralOfValue(digits: string)
    requires IsNumeral(digits) && (digits[0] != '0' || digits == "0")
    ensures NatToString(DigitsValue(digits)) == digits
    ensures DigitsValue(digits) > 0 || digits == "0"
  {
    var n := |digits| - 1;
    var d := DigitValue(digits[n]);
    assert DigitChar(d) == digits[n];
    assert digits == digits[..n] + [digits[n]];
    if n == 0 {
      assert digits[..n] == [];
      assert d == 0 ==> digits == "0";
    } else {
      NumeralOfValue(digits[..n]);
      var v := DigitsValue(digits[..n]);
      assert (v * 10 + d) / 10 == v && (v * 10 + d) % 10 == d;
    }
  }

  lemma PrintedIsText(s: string, n: int)
    ensures s == IntToString(n) <==> Prints(s, n)
  {
    var m: nat := if n < 0 then 0 - n else n;
    var digits := NatToString(m);
    DigitsRoundTrip(m);
    PositionalIsValue(digits);
    CanonicalNumeral(m);
    assert m == 0 ==> digits == "0";
    assert PrintsWith(IntToString(n), n, digits);
    if other :| IsNumeral(other) && PrintsWith(s, n, other) {
      PositionalIsValue(other);
      NumeralOfValue(other);
    }
  }

  // ---- conversions ----

  /** The same word, each letter of it in either case. */
  predicate SameWord(s: string, word: string) {
    |s| == |word| && forall i :: 0 <= i < |s| ==> s[i] == word[i] || ('a' <= word[i] <= 'z' && s[i] as int + 32 == word[i] as int)
  }

  lemma LowerIsWord(s: string, word: string)
    requires forall i :: 0 <= i < |word| ==> 'a' <= word[i] <= 'z'
    ensures Lower(s) == word <==> SameWord(s, word)
  {
    var l := Lower(s);
    assert |s| == |word| ==> (l == word <==> forall i :: 0 <= i < |s| ==> l[i] == word[i]);
  }

  /** A column of the type reads the constant `value` as `out`. */
  ghost predicate ReadsAs(expected: DataType, value: Value, out: Value) {
    match (expected, value)
    case (_, Null) => out == Null
    case (IntType, Int(_)) => out == value
    case (TextType, Text(_)) => out == value
    case (BoolType, Bool(_)) => out == value
    case (IntType, Text(s)) => out.Int? && Spells(s, out.i)
    case (BoolType, Text(s)) => out.Bool? && SameWord(s, if out.b then "true" else "false")
    case (TextType, Int(i)) => out.Text? && Prints(out.s, i)
    case (TextType, Bool(b)) => out == Text(if b then "true" else "false")
    case (IntType, Bool(_)) => false
    case (BoolType, Int(_)) => false
  }

  ghost predicate Readable(expected: DataType, value: Value) {
    exists out :: ReadsAs(expected, value, out)
  }

  /** Coercion gives exactly the value the column reads, and fails exactly when there is none. */
  lemma CoerceReads(column: string, expected: DataType, value: Value)
    ensures forall out :: Coerce(column, expected, value) == Ok(out) <==> ReadsAs(expected, value, out)
    ensures Coerce(column, expected, value).Ok? <==> Readable(expected, value)
    ensures Coerce(column, expected, value).Err? ==> Coerce(column, expected, value).error == TypeMismatch(column)
  {
    forall out ensures Coerce(column, expected, value) == Ok(out) <==> ReadsAs(expected, value, out) {
      CoerceReadsOne(column, expected, value, out);
    }
    assert Coerce(column, expected, value).Ok? ==> ReadsAs(expected, value, Coerce(column, expected, value).value);
  }

  lemma CoerceReadsOne(column: string, expected: DataType, value: Value, out: Value)
    ensures Coerce(column, expected, value) == Ok(out) <==> ReadsAs(expected, value, out)
  {
    hide ParseI64, IntToString, Lower, Spells, Prints, SameWord;
    match value {
      case Text(s) =>
        if expected.IntType? && out.Int? {
          ParsedIsSpelled(s, out.i);
        } else if expected.BoolType? {
          LowerIsWord(s, "true");
          LowerIsWord(s, "false");
        }
      case Int(i) =>
        if expected.TextType? && out.Text? {
          PrintedIsText(out.s, i);
        }
      case _ =>
    }
  }

  /** An integer or a truth value read as text is read back from it. */
  lemma BackFromText(column: string, value: Value, text: Value)
    requires value.Int? || value.Bool?
    requires Coerce(column, TextType, value) == Ok(text)
    ensures Coerce(column, if value.Int? then IntType else BoolType, text) == Ok(value)
  {
    if value.Int? {
      IntRoundTrip(value.i);
    } else {
      LowerIsWord("true", "true");
      LowerIsWord("false", "false");
    }
  }
}
