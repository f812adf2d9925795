/** WHERE: parsing a filter, printing one, and the round trip. */
module Where {
  import opened Types
  import opened Decimal
  import opened Text
  import opened Ast
  import opened Scanner
  import opened Words
  import opened Literals

  // ---- identifiers and prefixes ----

  predicate IsIdentifierChar(c: char) {
    IsLetter(c) || IsDigit(c) || c == '_'
  }

  /** `normalize_identifier`. */
  function NormalizeIdentifier(input: string): Result<string> {
    var ident := Trim(input);
    if ident == [] then Err(ParseError)
    else if IsQuotedBy('"', ident) then Ok(ident[1..|ident| - 1])
    else if exists i :: 0 <= i < |ident| && !IsIdentifierChar(ident[i]) then Err(ParseError)
    else Ok(Lower(ident))
  }

  /** The bytes of a character in UTF-8. */
  function Utf8Length(c: char): nat {
    if c as int < 0x80 then 1 else if c as int < 0x800 then 2 else if c as int < 0x10000 then 3 else 4
  }

  function ByteLength(s: string): nat {
    if s == [] then 0 else Utf8Length(s[0]) + ByteLength(s[1..])
  }

  /** The number of characters in the first n bytes; None when byte n lies inside a character. */
  function CharsWithin(s: string, n: nat): (r: Option<nat>)
    ensures r.Some? ==> r.value <= |s|
  {
    if n == 0 then Some(0)
    else if s == [] || Utf8Length(s[0]) > n then None
    else Shift(1, CharsWithin(s[1..], n - Utf8Length(s[0])))
  }

  datatype Stripped = Absent | Present(rest: string) | CutsCharacter

  /** `strip_prefix_ci` slices at the prefix's byte length, which must not lie inside a character. */
  function StripPrefix(input: string, prefix: string): Stripped {
    if ByteLength(input) < |prefix| then Absent
    else
      match CharsWithin(input, |prefix|)
      case None => CutsCharacter
      case Some(k) => if SameIgnoringCase(input[..k], prefix) then Present(input[k..]) else Absent
  }

  // ---- one comparison ----

  /** The SELECT grammar, a parameter of the filter parser. */
  type SelectParser = string -> Result<Statement>

  function NullTest(t: string, key: string, at: nat): Result<string>
    requires at + |key| <= |t|
  {
    var column :- NormalizeIdentifier(Trim(t[..at]));
    if Trim(t[at + |key|..]) != [] then Err(ParseError) else Ok(column)
  }

  /** The list or subquery after IN. */
  function InTest(select: SelectParser, t: string, key: string, at: nat, negated: bool): Result<Filter>
    requires at + |key| <= |t|
  {
    var column :- NormalizeIdentifier(Trim(t[..at]));
    var rhs := Trim(t[at + |key|..]);
    if rhs == [] || rhs[0] != '(' || rhs[|rhs| - 1] != ')' then Err(ParseError) else
    var inner := Trim(rhs[1..|rhs| - 1]);
    match StripPrefix(inner, "SELECT")
    case CutsCharacter => Err(Panicked)
    case Present(_) =>
      var subquery :- select(inner);
      Ok(InSubquery(column, subquery, negated))
    case Absent =>
      var values :- ParseList(inner);
      if values == [] then Err(ParseError) else Ok(InList(column, values, negated))
  }

  function LikeTest(t: string, at: nat): Result<Filter>
    requires at + 4 <= |t|
  {
    var column :- NormalizeIdentifier(Trim(t[..at]));
    var value :- ParseLiteral(Trim(t[at + 4..]));
    Ok(Compare(column, CompareOp.Like, value))
  }

  /** The operator's position counts characters, but slices bytes. */
  function OperatorAtBytes(t: string, o: Operator): Result<Filter> {
    match CharsWithin(t, o.at)
    case None => Err(Panicked)
    case Some(before) =>
      var column :- NormalizeIdentifier(Trim(t[..before]));
      match CharsWithin(t, o.at + o.len)
      case None => Err(Panicked)
      case Some(after) =>
        var value :- ParseLiteral(Trim(t[after..]));
        Ok(Compare(column, o.op, value))
  }

  function Search(key: string, t: string): (r: Option<nat>)
    ensures r.Some? ==> r.value + |key| <= |t|
  {
    Find(key, None, START, t)
  }

  /** `parse_comparison_expr`. */
  function ParseLeaf(select: SelectParser, input: string): Result<Filter> {
    var t := Trim(input);
    if t == [] then Err(ParseError)
    else if Search("IS NOT NULL", t).Some? then
      var column :- NullTest(t, "IS NOT NULL", Search("IS NOT NULL", t).value);
      Ok(IsNotNull(column))
    else if Search("IS NULL", t).Some? then
      var column :- NullTest(t, "IS NULL", Search("IS NULL", t).value);
      Ok(IsNull(column))
    else if Search("NOT IN", t).Some? then InTest(select, t, "NOT IN", Search("NOT IN", t).value, true)
    else if Search("IN", t).Some? then InTest(select, t, "IN", Search("IN", t).value, false)
    else if Search("LIKE", t).Some? then LikeTest(t, Search("LIKE", t).value)
    else
      match FindOperator(Outside, t)
      case None => Err(ParseError)
      case Some(o) => OperatorAtBytes(t, o)
  }

  type LeafParser = string -> Result<Filter>

  function Comparison(select: SelectParser): LeafParser {
    (input: string) => ParseLeaf(select, input)
  }

  // ---- AND and OR ----

  /** The parts in order, nested to the left. */
  function AndOf(leaf: LeafParser, parts: seq<string>): Result<Filter>
    requires parts != []
  {
    var n := |parts| - 1;
    if n == 0 then leaf(parts[0]) else
    var left :- AndOf(leaf, parts[..n]);
    var right :- leaf(parts[n]);
    Ok(And(left, right))
  }

  function ParseAnd(leaf: LeafParser, input: string): Result<Filter> {
    var parts :- Segments("AND", [], None, START, input);
    if |parts| <= 1 then leaf(input) else AndOf(leaf, parts)
  }

  function OrOf(leaf: LeafParser, parts: seq<string>): Result<Filter>
    requires parts != []
  {
    var n := |parts| - 1;
    if n == 0 then ParseAnd(leaf, parts[0]) else
    var left :- OrOf(leaf, parts[..n]);
    var right :- ParseAnd(leaf, parts[n]);
    Ok(Or(left, right))
  }

  function ParseOr(leaf: LeafParser, input: string): Result<Filter> {
    var parts :- Segments("OR", [], None, START, input);
    if |parts| <= 1 then ParseAnd(leaf, input) else OrOf(leaf, parts)
  }

  /** `parse_filter`. */
  function ParseFilter(select: SelectParser, input: string): Result<Filter> {
    ParseOr(Comparison(select), Trim(input))
  }

  lemma {:induction false} AndOfFails(leaf: LeafParser, parts: seq<string>, n: nat)
    requires 0 < n <= |parts| && AndOf(leaf, parts[..n]).Err?
    ensures AndOf(leaf, parts) == AndOf(leaf, parts[..n])
    decreases |parts| - n
  {
    if n < |parts| {
      assert parts[..n + 1][..n] == parts[..n];
      AndOfFails(leaf, parts, n + 1);
    } else {
      assert parts[..n] == parts;
    }
  }

  lemma {:induction false} OrOfFails(leaf: LeafParser, parts: seq<string>, n: nat)
    requires 0 < n <= |parts| && OrOf(leaf, parts[..n]).Err?
    ensures OrOf(leaf, parts) == OrOf(leaf, parts[..n])
    decreases |parts| - n
  {
    hide ParseAnd;
    if n < |parts| {
      assert parts[..n + 1][..n] == parts[..n];
      OrOfFails(leaf, parts, n + 1);
    } else {
      assert parts[..n] == parts;
    }
  }

  /** `parse_and_expr`: the loop nests to the left. */
  method ParseAndExpr(leaf: LeafParser, input: string) returns (r: Result<Filter>)
    ensures r == ParseAnd(leaf, input)
  {
    hide Segments;
    var parts :- SplitByKeyword(input, "AND");
    if |parts| <= 1 {
      return leaf(input);
    }
    assert parts[..1] == [parts[0]];
    var first := leaf(parts[0]);
    if first.Err? {
      AndOfFails(leaf, parts, 1);
      return first;
    }
    var expr := first.value;
    for n := 1 to |parts|
      invariant AndOf(leaf, parts[..n]) == Ok(expr)
    {
      assert parts[..n + 1][..n] == parts[..n];
      var right := leaf(parts[n]);
      if right.Err? {
        AndOfFails(leaf, parts, n + 1);
        return right;
      }
      expr := And(expr, right.value);
    }
    assert parts[..|parts|] == parts;
    r := Ok(expr);
  }

  /** `parse_or_expr`. */
  method ParseOrExpr(leaf: LeafParser, input: string) returns (r: Result<Filter>)
    ensures r == ParseOr(leaf, input)
  {
    hide Segments, ParseAnd;
    var parts :- SplitByKeyword(input, "OR");
    if |parts| <= 1 {
      r := ParseAndExpr(leaf, input);
      return;
    }
    assert parts[..1] == [parts[0]];
    var first := ParseAndExpr(leaf, parts[0]);
    if first.Err? {
      OrOfFails(leaf, parts, 1);
      return first;
    }
    var expr := first.value;
    for n := 1 to |parts|
      invariant OrOf(leaf, parts[..n]) == Ok(expr)
    {
      assert parts[..n + 1][..n] == parts[..n];
      var right := ParseAndExpr(leaf, parts[n]);
      if right.Err? {
        OrOfFails(leaf, parts, n + 1);
        return right;
      }
      expr := Or(expr, right.value);
    }
    assert parts[..|parts|] == parts;
    r := Ok(expr);
  }
}
