/** Literals: parsing them, printing them with doubled quotes, and the round trip of literals and of lists of them. */
module Literals {
  import opened Types
  import opened Decimal
  import opened Text
  import opened Scanner
  import opened Words

  // ---- parsing ----

  /** `replace`: every doubled quote becomes a single one, left to right. */
  function Undoubled(q: char, s: string): string
    decreases |s|
  {
    if s == [] then []
    else if |s| >= 2 && s[0] == q && s[1] == q then [q] + Undoubled(q, s[2..])
    else [s[0]] + Undoubled(q, s[1..])
  }

  predicate IsQuotedBy(q: char, token: string) {
    |token| >= 2 && token[0] == q && token[|token| - 1] == q
  }

  /** `parse_literal`. */
  function ParseLiteral(input: string): Result<Value> {
    var token := Trim(input);
    if SameIgnoringCase(token, "NULL") then Ok(Null)
    else if SameIgnoringCase(token, "TRUE") then Ok(Bool(true))
    else if SameIgnoringCase(token, "FALSE") then Ok(Bool(false))
    else if ParseI64(token).Some? then Ok(Int(ParseI64(token).value))
    else if IsQuotedBy('\'', token) then Ok(Text(Undoubled('\'', token[1..|token| - 1])))
    else if IsQuotedBy('"', token) then Ok(Text(Undoubled('"', token[1..|token| - 1])))
    else Err(ParseError)
  }

  function ParseAll(tokens: seq<string>): Result<seq<Value>> {
    if tokens == [] then Ok([]) else
    var value :- ParseLiteral(tokens[0]);
    var values :- ParseAll(tokens[1..]);
    Ok([value] + values)
  }

  /** `split_comma_aware`, then `parse_literal` on each piece. */
  function ParseList(text: string): Result<seq<Value>> {
    var tokens :- SplitOn(',', [], START, text);
    ParseAll(tokens)
  }

  // ---- printing ----

  function Doubled(q: char, s: string): string {
    if s == [] then [] else (if s[0] == q then [q, q] else [s[0]]) + Doubled(q, s[1..])
  }

  function Quoted(q: char, s: string): string {
    [q] + Doubled(q, s) + [q]
  }

  function PrintLiteral(q: char, v: Value): string {
    match v
    case Null => "NULL"
    case Bool(b) => if b then "TRUE" else "FALSE"
    case Int(i) => IntToString(i)
    case Text(s) => Quoted(q, s)
  }

  function Printed(q: char, values: seq<Value>): (r: seq<string>)
    ensures |r| == |values|
  {
    if values == [] then [] else [PrintLiteral(q, values[0])] + Printed(q, values[1..])
  }

  function PrintList(q: char, values: seq<Value>): string {
    if values == [] then []
    else if |values| == 1 then PrintLiteral(q, values[0])
    else PrintLiteral(q, values[0]) + ", " + PrintList(q, values[1..])
  }

  // ---- one literal ----

  lemma {:induction false} UndoubledDoubled(q: char, s: string)
    ensures Undoubled(q, Doubled(q, s)) == s
  {
    if s != [] {
      UndoubledDoubled(q, s[1..]);
      if s[0] == q {
        assert Doubled(q, s)[2..] == Doubled(q, s[1..]);
      } else {
        assert Doubled(q, s)[1..] == Doubled(q, s[1..]);
      }
    }
  }

  /** The state inside a string quoted by q. */
  function Inside(q: char): Scan {
    Scan(if q == '"' then Double else Single, 0)
  }

  lemma {:induction false} DoubledStaysInside(q: char, s: string)
    requires IsQuote(q)
    ensures Silent(Inside(q), Doubled(q, s)) && After(Inside(q), Doubled(q, s)) == Inside(q)
  {
    if s != [] {
      DoubledStaysInside(q, s[1..]);
      var d := Doubled(q, s);
      if s[0] == q {
        assert d[1..][1..] == Doubled(q, s[1..]);
        assert Step(Step(Inside(q), q), q) == Inside(q);
        assert d[1..][0] == q;
      } else {
        assert d[1..] == Doubled(q, s[1..]);
        assert Step(Inside(q), s[0]) == Inside(q);
      }
    }
  }

  lemma {:induction false} SilentAppend(st: Scan, s: string, t: string)
    requires Silent(st, s) && Silent(After(st, s), t)
    ensures Silent(st, s + t)
    decreases |s|
  {
    if s == [] {
      assert s + t == t;
    } else {
      assert (s + t)[1..] == s[1..] + t;
      SilentAppend(Step(st, s[0]), s[1..], t);
    }
  }

  lemma QuotedIsClosed(q: char, s: string)
    requires IsQuote(q)
    ensures Closed(Quoted(q, s))
  {
    var body := Doubled(q, s);
    DoubledStaysInside(q, s);
    SilentAppend(Inside(q), body, [q]);
    AfterAppend(Inside(q), body, [q]);
    assert [q][1..] == [];
    assert Quoted(q, s) == [q] + (body + [q]) && Quoted(q, s)[1..] == body + [q];
  }

  lemma PlainInt(i: int)
    ensures Plain(IntToString(i)) && (IntToString(i)[0] == '-' || IsDigit(IntToString(i)[0]))
  {
  }

  lemma LiteralIsWord(q: char, v: Value)
    requires IsQuote(q)
    ensures Word(PrintLiteral(q, v))
  {
    match v {
      case Text(s) => QuotedIsClosed(q, s);
      case Int(i) => PlainInt(i);
      case _ =>
    }
  }

  lemma WordIsTight(w: string)
    requires Word(w)
    ensures Tight(w)
  {
  }

  lemma DifferentFirst(s: string, t: string)
    requires s != [] && t != [] && UpperChar(s[0]) != UpperChar(t[0])
    ensures !SameIgnoringCase(s, t)
  {
    assert Upper(s)[0] != Upper(t)[0];
  }

  lemma IntLiteral(i: I64)
    ensures ParseLiteral(IntToString(i)) == Ok(Int(i))
  {
    hide Trim, ParseI64, SameIgnoringCase;
    var s := IntToString(i);
    PlainInt(i);
    WordIsTight(s);
    TrimTight([], s, []);
    assert [] + s + [] == s;
    DifferentFirst(s, "NULL");
    DifferentFirst(s, "TRUE");
    DifferentFirst(s, "FALSE");
    IntRoundTrip(i);
  }

  lemma TextLiteral(q: char, s: string)
    requires IsQuote(q)
    ensures ParseLiteral(Quoted(q, s)) == Ok(Text(s))
  {
    hide Trim, SameIgnoringCase;
    var token := Quoted(q, s);
    QuotedIsClosed(q, s);
    TrimTight([], token, []);
    assert [] + token + [] == token;
    DifferentFirst(token, "NULL");
    DifferentFirst(token, "TRUE");
    DifferentFirst(token, "FALSE");
    assert !IsDigit(token[0]) && ParseI64(token).None?;
    assert token[1..|token| - 1] == Doubled(q, s);
    UndoubledDoubled(q, s);
  }

  /** Every value is read back from its printed form, whatever quotes, commas or parentheses a text holds. */
  lemma LiteralRoundTrip(q: char, v: Value)
    requires IsQuote(q)
    ensures ParseLiteral(PrintLiteral(q, v)) == Ok(v)
  {
    match v {
      case Text(s) => TextLiteral(q, s);
      case Int(i) => IntLiteral(i);
      case Null => WordLiteral("NULL");
      case Bool(b) => WordLiteral(if b then "TRUE" else "FALSE");
    }
  }

  lemma WordLiteral(token: string)
    requires token in {"NULL", "TRUE", "FALSE"}
    ensures ParseLiteral(token) == Ok(if token == "NULL" then Null else Bool(token == "TRUE"))
  {
    hide Trim, ParseI64, SameIgnoringCase;
    WordIsTrimmed(token);
    WordsMatchThemselves(token);
    if token != "NULL" {
      DifferentFirst(token, "NULL");
    }
    if token == "FALSE" {
      DifferentFirst(token, "TRUE");
    }
  }

  lemma WordIsTrimmed(token: string)
    requires token in {"NULL", "TRUE", "FALSE"}
    ensures Trim(token) == token
  {
    hide Trim;
    TrimTight([], token, []);
    assert [] + token + [] == token;
  }

  lemma WordsMatchThemselves(token: string)
    ensures SameIgnoringCase(token, token)
  {
  }

  // ---- lists ----

  lemma {:induction false} SplitSilent(delimiter: char, current: string, st: Scan, w: string, rest: string)
    requires IsDelimiter(delimiter) && Silent(st, w)
    ensures SplitOn(delimiter, current, st, w + rest) == SplitOn(delimiter, current + w, After(st, w), rest)
    decreases |w|
  {
    if w == [] {
      assert w + rest == rest && current + w == current;
    } else {
      assert (w + rest)[1..] == w[1..] + rest;
      SplitSilent(delimiter, current + [w[0]], Step(st, w[0]), w[1..], rest);
      assert current + [w[0]] + w[1..] == current + w;
    }
  }

  lemma {:induction false} SplitPlain(delimiter: char, current: string, w: string, rest: string)
    requires IsDelimiter(delimiter) && forall i :: 0 <= i < |w| ==> PlainChar(w[i])
    ensures SplitOn(delimiter, current, START, w + rest) == SplitOn(delimiter, current + w, START, rest)
    decreases |w|
  {
    if w == [] {
      assert w + rest == rest && current + w == current;
    } else {
      assert (w + rest)[1..] == w[1..] + rest;
      assert w[0] != delimiter && Step(START, w[0]) == START;
      SplitPlain(delimiter, current + [w[0]], w[1..], rest);
      assert current + [w[0]] + w[1..] == current + w;
    }
  }

  lemma SplitWord(delimiter: char, current: string, w: string, rest: string)
    requires IsDelimiter(delimiter) && Word(w)
    ensures SplitOn(delimiter, current, START, w + rest) == SplitOn(delimiter, current + w, START, rest)
  {
    hide SplitOn;
    if Plain(w) {
      SplitPlain(delimiter, current, w, rest);
    } else {
      SplitSilent(delimiter, current, START, w, rest);
    }
  }

  lemma SplitComma(current: string, rest: string)
    ensures SplitOn(',', current, START, ", " + rest)
      == Appended(Piece(current), SplitOn(',', " ", START, rest))
  {
    var text := ", " + rest;
    assert text[1..] == " " + rest && (" " + rest)[1..] == rest;
    assert [] + [' '] == " ";
    assert SplitOn(',', [], START, " " + rest) == SplitOn(',', " ", START, rest);
  }

  lemma {:induction false} SplitPrinted(q: char, values: seq<Value>, lead: string)
    requires IsQuote(q) && values != [] && Spaces(lead)
    ensures SplitOn(',', lead, START, PrintList(q, values)) == Ok(Printed(q, values))
    decreases |values|
  {
    hide SplitOn, PrintLiteral, Trim, Word, Tight;
    var w := PrintLiteral(q, values[0]);
    LiteralIsWord(q, values[0]);
    WordIsTight(w);
    TrimTight(lead, w, []);
    assert lead + w + [] == lead + w;
    PieceOf(lead + w, w);
    if |values| == 1 {
      SplitWord(',', lead, w, []);
      assert w + [] == w;
      SplitNothing(lead + w);
      assert [w] + Printed(q, values[1..]) == [w];
    } else {
      SplitWord(',', lead, w, ", " + PrintList(q, values[1..]));
      assert PrintList(q, values) == w + (", " + PrintList(q, values[1..]));
      SplitComma(lead + w, PrintList(q, values[1..]));
      SplitPrinted(q, values[1..], " ");
    }
  }

  lemma PieceOf(current: string, w: string)
    requires Trim(current) == w && Tight(w)
    ensures Piece(current) == [w]
  {
  }

  lemma SplitNothing(current: string)
    ensures SplitOn(',', current, START, []) == Ok(Piece(current))
  {
  }

  lemma {:induction false} ParsePrinted(q: char, values: seq<Value>)
    requires IsQuote(q)
    ensures ParseAll(Printed(q, values)) == Ok(values)
  {
    hide ParseLiteral, PrintLiteral;
    if values != [] {
      LiteralRoundTrip(q, values[0]);
      ParsePrinted(q, values[1..]);
      assert Printed(q, values)[1..] == Printed(q, values[1..]);
      assert [values[0]] + values[1..] == values;
    }
  }

  /** Every list of values is read back from its printed form. */
  lemma ListRoundTrip(q: char, values: seq<Value>)
    requires IsQuote(q)
    ensures ParseList(PrintList(q, values)) == Ok(values)
  {
    if values == [] {
      assert Trim([]) == [];
      assert SplitOn(',', [], START, []) == Ok([]);
    } else {
      SplitPrinted(q, values, []);
      ParsePrinted(q, values);
    }
  }
}
