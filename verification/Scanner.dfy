/**
 The quote-aware scanners: one state machine of quotes and parentheses, shared by the keyword search, the
 keyword and delimiter splitters and the operator search.
 */
module Scanner {
  import opened Types
  import opened Text
  import opened Ast

  datatype Quote = Outside | Single | Double

  /** Where a scanner stands: inside which quotes, and below how many open parentheses. */
  datatype Scan = Scan(quote: Quote, depth: int)

  const START := Scan(Outside, 0)

  predicate IsQuote(c: char) {
    c == '\'' || c == '"'
  }

  /** The character opens or closes a quote here. */
  predicate Toggles(quote: Quote, c: char) {
    (c == '\'' && quote != Double) || (c == '"' && quote != Single)
  }

  /** One character. A quote toggles; parentheses count outside quotes only. */
  function Step(st: Scan, c: char): Scan {
    if c == '\'' && st.quote != Double then st.(quote := if st.quote == Single then Outside else Single)
    else if c == '"' && st.quote != Single then st.(quote := if st.quote == Double then Outside else Double)
    else if st.quote == Outside && c == '(' then st.(depth := st.depth + 1)
    else if st.quote == Outside && c == ')' then st.(depth := st.depth - 1)
    else st
  }

  function After(st: Scan, s: string): Scan
    decreases |s|
  {
    if s == [] then st else After(Step(st, s[0]), s[1..])
  }

  lemma {:induction false} AfterAppend(st: Scan, s: string, t: string)
    ensures After(st, s + t) == After(After(st, s), t)
    decreases |s|
  {
    if s == [] {
      assert s + t == t;
    } else {
      assert (s + t)[1..] == s[1..] + t;
      AfterAppend(Step(st, s[0]), s[1..], t);
    }
  }

  // ---- keywords ----

  predicate IsLetter(c: char) {
    'a' <= c <= 'z' || 'A' <= c <= 'Z'
  }

  /** `is_boundary` of one byte. */
  predicate IsBoundary(c: char) {
    c == ' ' || c == '\t' || c == '\n' || c == 12 as char || c == '\r' || c in {'(', ')', ',', ';'}
  }

  predicate BoundaryBefore(prev: Option<char>) {
    prev.None? || IsBoundary(prev.value)
  }

  /** A keyword starts with a letter, ends with one, and holds letters and spaces. */
  predicate IsKeyword(key: string) {
    key != [] && IsLetter(key[0]) && IsLetter(key[|key| - 1]) && forall i :: 0 <= i < |key| ==> IsLetter(key[i]) || key[i] == ' '
  }

  /** The keyword lies here: outside quotes and parentheses, in any case, between boundaries. */
  predicate Hit(key: string, prev: Option<char>, st: Scan, rest: string) {
    && st == START
    && |key| <= |rest| && SameIgnoringCase(rest[..|key|], key)
    && BoundaryBefore(prev)
    && (|rest| == |key| || IsBoundary(rest[|key|]))
  }

  function Shift(n: nat, found: Option<nat>): Option<nat> {
    if found.Some? then Some(found.value + n) else None
  }

  /** The first hit at or after this point, toggling at every quote. */
  function Find(key: string, prev: Option<char>, st: Scan, rest: string): (r: Option<nat>)
    ensures r.Some? ==> r.value + |key| <= |rest|
    decreases |rest|
  {
    if rest == [] then None
    else if Hit(key, prev, st, rest) then Some(0)
    else Shift(1, Find(key, Some(rest[0]), Step(st, rest[0]), rest[1..]))
  }

  lemma HitIsLetter(key: string, prev: Option<char>, st: Scan, rest: string)
    requires IsKeyword(key) && Hit(key, prev, st, rest)
    ensures rest != [] && IsLetter(rest[0])
  {
    assert Upper(rest[..|key|])[0] == Upper(key)[0];
  }

  function Before(s: string, i: nat): Option<char>
    requires i <= |s|
  {
    if i == 0 then None else Some(s[i - 1])
  }

  /** A doubled quote leaves the state as it was, and neither of its characters starts a keyword. */
  lemma SkipPair(key: string, prev: Option<char>, st: Scan, rest: string)
    requires IsKeyword(key) && |rest| >= 2 && rest[0] == rest[1]
    requires (rest[0] == '\'' && st.quote == Single) || (rest[0] == '"' && st.quote == Double)
    ensures Step(Step(st, rest[0]), rest[1]) == st
    ensures Find(key, prev, st, rest) == Shift(2, Find(key, Some(rest[1]), st, rest[2..]))
  {
    assert rest[1..][1..] == rest[2..];
    if Hit(key, Some(rest[0]), Step(st, rest[0]), rest[1..]) {
      HitIsLetter(key, Some(rest[0]), Step(st, rest[0]), rest[1..]);
    }
  }

  lemma FindStep(key: string, s: string, i: nat, st: Scan)
    requires i < |s| && !Hit(key, Before(s, i), st, s[i..])
    ensures Find(key, Before(s, i), st, s[i..]) == Shift(1, Find(key, Before(s, i + 1), Step(st, s[i]), s[i + 1..]))
  {
    assert s[i..][1..] == s[i + 1..];
  }

  lemma QuoteIsNoHit(key: string, prev: Option<char>, st: Scan, rest: string)
    requires IsKeyword(key) && rest != [] && !IsLetter(rest[0])
    ensures !Hit(key, prev, st, rest)
  {
    if Hit(key, prev, st, rest) {
      HitIsLetter(key, prev, st, rest);
    }
  }

  /** `find_keyword_outside_quotes`: the loop that jumps over doubled quotes finds what plain toggling finds. */
  method FindKeyword(s: string, key: string) returns (r: Option<nat>)
    requires IsKeyword(key)
    ensures r == Find(key, None, START, s)
  {
    hide Find, Hit;
    var i, st := 0, START;
    while i < |s|
      invariant i <= |s|
      invariant Find(key, None, START, s) == Shift(i, Find(key, Before(s, i), st, s[i..]))
    {
      var c := s[i];
      if Toggles(st.quote, c) {
        if st.quote != Outside && i + 1 < |s| && s[i + 1] == c {
          SkipPair(key, Before(s, i), st, s[i..]);
          assert s[i..][2..] == s[i + 2..];
          i := i + 2;
          continue;
        }
        QuoteIsNoHit(key, Before(s, i), st, s[i..]);
        FindStep(key, s, i, st);
        st := Step(st, c);
        i := i + 1;
        continue;
      }
      var next := Step(st, c);
      if next.quote == Outside && next.depth == 0 && HitAt(s, key, i) {
        HitDecided(key, s, i, st);
        return Some(i);
      }
      HitDecided(key, s, i, st);
      FindStep(key, s, i, st);
      st := next;
      i := i + 1;
    }
    FindNothing(key, Before(s, i), st);
    r := None;
  }

  /** The loop's test on the text itself. */
  predicate HitAt(s: string, key: string, i: nat)
    requires i <= |s|
  {
    && i + |key| <= |s| && SameIgnoringCase(s[i..i + |key|], key)
    && BoundaryBefore(Before(s, i)) && (i + |key| == |s| || IsBoundary(s[i + |key|]))
  }

  lemma HitDecided(key: string, s: string, i: nat, st: Scan)
    requires i < |s| && IsKeyword(key)
    ensures Hit(key, Before(s, i), st, s[i..]) <==> Step(st, s[i]).quote == Outside && Step(st, s[i]).depth == 0 && HitAt(s, key, i)
    ensures Hit(key, Before(s, i), st, s[i..]) ==> Find(key, Before(s, i), st, s[i..]) == Some(0)
  {
    if i + |key| <= |s| {
      assert s[i..][..|key|] == s[i..i + |key|];
      if SameIgnoringCase(s[i..i + |key|], key) {
        assert Upper(s[i..i + |key|])[0] == Upper(key)[0];
        assert IsLetter(s[i]);
      }
    }
  }

  lemma FindNothing(key: string, prev: Option<char>, st: Scan)
    ensures Find(key, prev, st, []) == None
  {
  }

  // ---- splitting at a keyword ----

  /** One continuous pass: the text between hits, trimmed; an empty piece is an error. */
  function Segments(key: string, current: string, prev: Option<char>, st: Scan, rest: string): (r: Result<seq<string>>)
    requires key != []
    ensures r.Ok? ==> r.value != []
    decreases |rest|
  {
    if rest == [] then
      if Trim(current) == [] then Err(ParseError) else Ok([Trim(current)])
    else if Hit(key, prev, st, rest) then
      if Trim(current) == [] then Err(ParseError) else
      var tail :- Segments(key, [], Some(key[|key| - 1]), st, rest[|key|..]);
      Ok([Trim(current)] + tail)
    else Segments(key, current + [rest[0]], Some(rest[0]), Step(st, rest[0]), rest[1..])
  }

  /** The continuous pass up to the next hit. */
  lemma {:induction false} SegmentsByFind(key: string, current: string, prev: Option<char>, st: Scan, rest: string)
    requires key != []
    ensures Segments(key, current, prev, st, rest) == UpToHit(key, current, rest, Find(key, prev, st, rest))
    decreases |rest|
  {
    hide Hit, Trim;
    if rest == [] {
      assert current + rest == current;
    } else if Hit(key, prev, st, rest) {
      assert current + rest[..0] == current;
      HitAtStart(key, prev, st, rest);
    } else {
      SegmentsByFind(key, current + [rest[0]], Some(rest[0]), Step(st, rest[0]), rest[1..]);
      UpToHitNext(key, current, rest, Find(key, Some(rest[0]), Step(st, rest[0]), rest[1..]));
    }
  }

  lemma HitAtStart(key: string, prev: Option<char>, st: Scan, rest: string)
    requires Hit(key, prev, st, rest)
    ensures st == START
  {
  }

  function UpToHit(key: string, current: string, rest: string, found: Option<nat>): Result<seq<string>>
    requires key != [] && (found.Some? ==> found.value + |key| <= |rest|)
  {
    if found.None? then if Trim(current + rest) == [] then Err(ParseError) else Ok([Trim(current + rest)])
    else Cut(Trim(current + rest[..found.value]), Segments(key, [], Some(key[|key| - 1]), START, rest[found.value + |key|..]))
  }

  lemma UpToHitNext(key: string, current: string, rest: string, found: Option<nat>)
    requires key != [] && rest != [] && (found.Some? ==> found.value + |key| <= |rest| - 1)
    ensures UpToHit(key, current + [rest[0]], rest[1..], found) == UpToHit(key, current, rest, Shift(1, found))
  {
    hide Trim, Segments, Cut;
    assert current + [rest[0]] + rest[1..] == current + rest;
    if found.Some? {
      assert current + [rest[0]] + rest[1..][..found.value] == current + rest[..found.value + 1];
      assert rest[1..][found.value + |key|..] == rest[found.value + 1 + |key|..];
    }
  }

  function Cut(piece: string, tail: Result<seq<string>>): Result<seq<string>> {
    if piece == [] then Err(ParseError) else
    var pieces :- tail;
    Ok([piece] + pieces)
  }

  /** Restarting the scanner right after a hit, with a fresh state and no previous character, finds what going on finds. */
  lemma RestartIsContinuous(key: string, prev: char, rest: string)
    requires IsKeyword(key) && (rest == [] || IsBoundary(rest[0]))
    ensures Find(key, None, START, rest) == Find(key, Some(prev), START, rest)
  {
    if rest != [] {
      QuoteIsNoHit(key, None, START, rest);
      QuoteIsNoHit(key, Some(prev), START, rest);
    }
  }

  lemma {:induction false} AfterFound(key: string, prev: Option<char>, st: Scan, rest: string)
    requires Find(key, prev, st, rest).Some?
    ensures var n := Find(key, prev, st, rest).value + |key|; n == |rest| || IsBoundary(rest[n])
    decreases |rest|
  {
    if !Hit(key, prev, st, rest) {
      AfterFound(key, Some(rest[0]), Step(st, rest[0]), rest[1..]);
    }
  }

  function Appended(head: seq<string>, tail: Result<seq<string>>): Result<seq<string>> {
    match tail
    case Ok(pieces) => Ok(head + pieces)
    case Err(e) => Err(e)
  }

  lemma AppendedNothing(tail: Result<seq<string>>)
    ensures Appended([], tail) == tail
  {
    if tail.Ok? {
      assert [] + tail.value == tail.value;
    }
  }

  lemma AppendedCut(head: seq<string>, piece: string, tail: Result<seq<string>>)
    requires piece != []
    ensures Appended(head, Cut(piece, tail)) == Appended(head + [piece], tail)
  {
    if tail.Ok? {
      assert head + ([piece] + tail.value) == head + [piece] + tail.value;
    }
  }

  /** Cut up to a cursor: the pieces so far, followed by what one continuous pass makes of the rest, are the whole answer. */
  ghost predicate SplitSoFar(key: string, input: string, segments: seq<string>, cursor: nat, prev: Option<char>) {
    && key != [] && cursor <= |input| && (segments == [] ==> cursor == 0)
    && Segments(key, [], None, START, input) == Appended(segments, Segments(key, [], prev, START, input[cursor..]))
    && Find(key, prev, START, input[cursor..]) == Find(key, None, START, input[cursor..])
  }

  lemma SplitStart(key: string, input: string)
    requires IsKeyword(key)
    ensures SplitSoFar(key, input, [], 0, None)
  {
    assert input[0..] == input;
    AppendedNothing(Segments(key, [], None, START, input));
  }

  lemma SplitNext(key: string, input: string, segments: seq<string>, cursor: nat, prev: Option<char>, at: nat)
    requires IsKeyword(key) && SplitSoFar(key, input, segments, cursor, prev)
    requires Find(key, None, START, input[cursor..]) == Some(at)
    ensures var segment := Trim(input[cursor..][..at]);
      if segment == [] then Segments(key, [], None, START, input) == Err(ParseError)
      else SplitSoFar(key, input, segments + [segment], cursor + at + |key|, Some(key[|key| - 1]))
  {
    hide Find, Segments, Trim, Appended, Cut, IsKeyword;
    var rest := input[cursor..];
    var segment, tail := Trim(rest[..at]), Segments(key, [], Some(key[|key| - 1]), START, rest[at + |key|..]);
    SegmentsByFind(key, [], prev, START, rest);
    assert [] + rest[..at] == rest[..at];
    assert rest[at + |key|..] == input[cursor + at + |key|..];
    if segment == [] {
      CutNothing(segments, tail);
    } else {
      AppendedCut(segments, segment, tail);
      AfterFound(key, prev, START, rest);
      RestartIsContinuous(key, key[|key| - 1], rest[at + |key|..]);
    }
  }

  lemma SplitEnd(key: string, input: string, segments: seq<string>, cursor: nat, prev: Option<char>)
    requires SplitSoFar(key, input, segments, cursor, prev)
    requires Find(key, None, START, input[cursor..]) == None
    ensures var tail := Trim(input[cursor..]);
      Segments(key, [], None, START, input) == if tail == [] then Err(ParseError) else Ok(segments + [tail])
  {
    hide Find, Segments, Trim;
    SegmentsByFind(key, [], prev, START, input[cursor..]);
    assert [] + input[cursor..] == input[cursor..];
  }

  /** `split_by_keyword_aware`: searching again from each cursor splits as one continuous pass does. */
  method SplitByKeyword(input: string, key: string) returns (r: Result<seq<string>>)
    requires IsKeyword(key)
    ensures r == Segments(key, [], None, START, input)
  {
    hide Find, Segments, IsKeyword, Trim, SplitSoFar;
    var segments: seq<string> := [];
    var cursor := 0;
    ghost var prev: Option<char> := None;
    SplitStart(key, input);
    while true
      invariant cursor <= |input| && SplitSoFar(key, input, segments, cursor, prev)
      invariant segments == [] ==> cursor == 0
      decreases |input| - cursor
    {
      var found := FindKeyword(input[cursor..], key);
      if found.None? {
        break;
      }
      KeywordIsThere(key);
      SplitNext(key, input, segments, cursor, prev, found.value);
      var segment := Trim(input[cursor..][..found.value]);
      if segment == [] {
        return Err(ParseError);
      }
      segments := segments + [segment];
      cursor := cursor + found.value + |key|;
      prev := Some(key[|key| - 1]);
    }
    SplitEnd(key, input, segments, cursor, prev);
    var tail := Trim(input[cursor..]);
    if tail == [] {
      return Err(ParseError);
    }
    if segments != [] {
      r := Ok(segments + [tail]);
    } else {
      assert segments + [tail] == [tail] && input[cursor..] == input;
      r := Ok([Trim(input)]);
    }
  }

  lemma CutNothing(head: seq<string>, tail: Result<seq<string>>)
    ensures Appended(head, Cut([], tail)) == Err(ParseError)
  {
  }

  lemma KeywordIsThere(key: string)
    requires IsKeyword(key)
    ensures key != []
  {
  }

  // ---- splitting at a delimiter ----

  /** The pieces between free delimiters, trimmed, empty ones dropped; a quote left open is an error. */
  function SplitOn(delimiter: char, current: string, st: Scan, rest: string): Result<seq<string>>
    decreases |rest|
  {
    if rest == [] then
      if st.quote != Outside then Err(ParseError) else Ok(Piece(current))
    else if rest[0] == delimiter && st == START then
      var tail :- SplitOn(delimiter, [], st, rest[1..]);
      Ok(Piece(current) + tail)
    else SplitOn(delimiter, current + [rest[0]], Step(st, rest[0]), rest[1..])
  }

  function Piece(current: string): seq<string> {
    if Trim(current) == [] then [] else [Trim(current)]
  }

  predicate IsDelimiter(c: char) {
    c == ',' || c == ';'
  }

  lemma SplitPair(delimiter: char, current: string, st: Scan, rest: string)
    requires IsDelimiter(delimiter) && |rest| >= 2 && rest[0] == rest[1] && IsQuote(rest[0])
    requires (rest[0] == '\'' && st.quote == Single) || (rest[0] == '"' && st.quote == Double)
    ensures SplitOn(delimiter, current, st, rest) == SplitOn(delimiter, current + [rest[0], rest[1]], st, rest[2..])
  {
    assert rest[1..][1..] == rest[2..];
    assert current + [rest[0]] + [rest[1]] == current + [rest[0], rest[1]];
  }

  /** `split_aware`. */
  method SplitAware(input: string, delimiter: char) returns (r: Result<seq<string>>)
    requires IsDelimiter(delimiter)
    ensures r == SplitOn(delimiter, [], START, input)
  {
    hide Trim;
    var parts: seq<string> := [];
    var current := "";
    var i, st := 0, START;
    assert input[0..] == input;
    AppendedNothing(SplitOn(delimiter, [], START, input));
    while i < |input|
      invariant i <= |input|
      invariant SplitOn(delimiter, [], START, input) == Appended(parts, SplitOn(delimiter, current, st, input[i..]))
    {
      var c := input[i];
      assert input[i..][1..] == input[i + 1..];
      if Toggles(st.quote, c) {
        if st.quote != Outside && i + 1 < |input| && input[i + 1] == c {
          SplitPair(delimiter, current, st, input[i..]);
          assert input[i..][2..] == input[i + 2..];
          current := current + [c, c];
          i := i + 2;
        } else {
          current := current + [c];
          st := Step(st, c);
          i := i + 1;
        }
        continue;
      }
      st := Step(st, c);
      if c == delimiter && st.quote == Outside && st.depth == 0 {
        PartsAppend(parts, Piece(current), SplitOn(delimiter, [], st, input[i + 1..]));
        parts := parts + Piece(current);
        current := "";
      } else {
        current := current + [c];
      }
      i := i + 1;
    }
    if st.quote != Outside {
      return Err(ParseError);
    }
    r := Ok(parts + Piece(current));
  }

  lemma PartsAppend(parts: seq<string>, piece: seq<string>, tail: Result<seq<string>>)
    ensures tail.Ok? ==> Appended(parts, Ok(piece + tail.value)) == Appended(parts + piece, tail)
  {
    if tail.Ok? {
      assert parts + (piece + tail.value) == parts + piece + tail.value;
    }
  }

  // ---- comparison operators ----

  datatype Operator = Operator(at: nat, len: nat, op: CompareOp)

  /** The operator that starts here, two-character ones first. */
  function OperatorHere(rest: string): Option<(nat, CompareOp)>
    requires rest != []
  {
    var two := |rest| > 1;
    if two && rest[0] == '>' && rest[1] == '=' then Some((2, Gte))
    else if two && rest[0] == '<' && rest[1] == '=' then Some((2, Lte))
    else if two && rest[0] == '!' && rest[1] == '=' then Some((2, NotEq))
    else if two && rest[0] == '<' && rest[1] == '>' then Some((2, NotEq))
    else if rest[0] == '=' then Some((1, Eq))
    else if rest[0] == '>' then Some((1, Gt))
    else if rest[0] == '<' then Some((1, Lt))
    else None
  }

  function Moved(n: nat, found: Option<Operator>): Option<Operator> {
    if found.Some? then Some(found.value.(at := found.value.at + n)) else None
  }

  /** The first operator outside quotes. */
  function FindOperator(quote: Quote, rest: string): (r: Option<Operator>)
    ensures r.Some? ==> r.value.at + r.value.len <= |rest|
    decreases |rest|
  {
    if rest == [] then None
    else if quote == Outside && OperatorHere(rest).Some? then
      Some(Operator(0, OperatorHere(rest).value.0, OperatorHere(rest).value.1))
    else Moved(1, FindOperator(Step(Scan(quote, 0), rest[0]).quote, rest[1..]))
  }

  lemma OperatorPair(quote: Quote, rest: string)
    requires |rest| >= 2 && rest[0] == rest[1]
    requires (rest[0] == '\'' && quote == Single) || (rest[0] == '"' && quote == Double)
    ensures FindOperator(quote, rest) == Moved(2, FindOperator(quote, rest[2..]))
  {
    assert rest[1..][1..] == rest[2..];
  }

  lemma OperatorStep(quote: Quote, input: string, i: nat)
    requires i < |input|
    ensures FindOperator(quote, input[i..]) ==
      if quote == Outside && OperatorHere(input[i..]).Some? then
        Some(Operator(0, OperatorHere(input[i..]).value.0, OperatorHere(input[i..]).value.1))
      else Moved(1, FindOperator(Step(Scan(quote, 0), input[i]).quote, input[i + 1..]))
  {
    assert input[i..][1..] == input[i + 1..];
  }

  lemma QuoteIsNoOperator(rest: string)
    requires rest != [] && IsQuote(rest[0])
    ensures OperatorHere(rest).None?
  {
  }

  /** `find_comparison_operator`. */
  method FindComparisonOperator(input: string) returns (r: Result<Operator>)
    ensures r == if FindOperator(Outside, input).Some? then Ok(FindOperator(Outside, input).value) else Err(ParseError)
  {
    hide FindOperator, OperatorHere;
    var i, quote := 0, Outside;
    assert input[0..] == input;
    while i < |input|
      invariant i <= |input|
      invariant FindOperator(Outside, input) == Moved(i, FindOperator(quote, input[i..]))
    {
      var c := input[i];
      OperatorStep(quote, input, i);
      if Toggles(quote, c) {
        if quote != Outside && i + 1 < |input| && input[i + 1] == c {
          OperatorPair(quote, input[i..]);
          assert input[i..][2..] == input[i + 2..];
          i := i + 2;
        } else {
          QuoteIsNoOperator(input[i..]);
          quote := Step(Scan(quote, 0), c).quote;
          i := i + 1;
        }
        continue;
      }
      if quote == Outside {
        var here := OperatorHere(input[i..]);
        if here.Some? {
          return Ok(Operator(i, here.value.0, here.value.1));
        }
      }
      i := i + 1;
    }
    NoOperatorLeft(quote);
    r := Err(ParseError);
  }

  lemma NoOperatorLeft(quote: Quote)
    ensures FindOperator(quote, []) == None
  {
  }
}
