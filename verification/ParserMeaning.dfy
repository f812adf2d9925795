/** What the parser's searches find and which values its literals read, by position and character. */
module ParserMeaning {
  import opened Types
  import opened Text
  import opened Ast
  import opened Scanner
  import opened Literals
  import opened Coercions
  import Decimal
  import Where

  // ---- keywords ----

  /** Capitals, with spaces between them. */
  predicate IsCapital(word: string) {
    forall i :: 0 <= i < |word| ==> 'A' <= word[i] <= 'Z' || word[i] == ' '
  }

  /** The same word, each of its capitals in either case. */
  predicate AnyCase(s: string, word: string) {
    |s| == |word| && forall i :: 0 <= i < |s| ==> s[i] == word[i] || ('A' <= word[i] <= 'Z' && s[i] as int == word[i] as int + 32)
  }

  lemma IgnoringCaseIsAnyCase(s: string, word: string)
    requires IsCapital(word)
    ensures SameIgnoringCase(s, word) <==> AnyCase(s, word)
  {
    assert |s| == |word| ==> (Upper(s) == Upper(word) <==> forall i :: 0 <= i < |s| ==> Upper(s)[i] == Upper(word)[i]);
  }

  predicate Separates(c: char) {
    c in {' ', '\t', '\n', 12 as char, '\r', '(', ')', ',', ';'}
  }

  /** The quotes and parentheses opened before this place are closed again. */
  predicate FreeAt(s: string, i: nat)
    requires i <= |s|
  {
    After(START, s[..i]) == START
  }

  /** The keyword stands here, in any case, between separators, outside quotes and parentheses. */
  predicate KeywordAt(s: string, key: string, i: nat) {
    && i + |key| <= |s| && FreeAt(s, i) && AnyCase(s[i..i + |key|], key)
    && (i == 0 || Separates(s[i - 1])) && (i + |key| == |s| || Separates(s[i + |key|]))
  }

  lemma HitIsKeyword(s: string, key: string, i: nat)
    requires IsCapital(key) && i < |s|
    ensures Hit(key, Before(s, i), After(START, s[..i]), s[i..]) <==> KeywordAt(s, key, i)
  {
    hide After, AnyCase, SameIgnoringCase;
    if i + |key| <= |s| {
      assert s[i..][..|key|] == s[i..i + |key|];
      IgnoringCaseIsAnyCase(s[i..i + |key|], key);
    }
  }

  lemma AfterNext(s: string, i: nat)
    requires i < |s|
    ensures After(START, s[..i + 1]) == Step(After(START, s[..i]), s[i])
  {
    assert s[..i + 1] == s[..i] + [s[i]];
    AfterAppend(START, s[..i], [s[i]]);
    assert [s[i]][1..] == [];
  }

  lemma {:induction false} FoundFrom(s: string, key: string, i: nat)
    requires IsCapital(key) && key != [] && i <= |s|
    ensures var r := Find(key, Before(s, i), After(START, s[..i]), s[i..]);
      && (r.Some? ==> KeywordAt(s, key, i + r.value))
      && forall j: nat :: i <= j && (r.Some? ==> j < i + r.value) ==> !KeywordAt(s, key, j)
    decreases |s| - i
  {
    hide Hit, KeywordAt, After, Step;
    var st := After(START, s[..i]);
    if i < |s| {
      HitIsKeyword(s, key, i);
      if !Hit(key, Before(s, i), st, s[i..]) {
        FindStep(key, s, i, st);
        AfterNext(s, i);
        FoundFrom(s, key, i + 1);
      }
    } else {
      forall j: nat | i <= j ensures !KeywordAt(s, key, j) {
        TooLate(s, key, j);
      }
    }
  }

  lemma TooLate(s: string, key: string, j: nat)
    requires key != [] && j >= |s|
    ensures !KeywordAt(s, key, j)
  {
  }

  /** The search finds the first place where the keyword stands, and nothing exactly when there is none. */
  lemma FindMeans(s: string, key: string)
    requires IsCapital(key) && key != []
    ensures var r := Find(key, None, START, s);
      && (r.Some? ==> KeywordAt(s, key, r.value) && forall j: nat :: j < r.value ==> !KeywordAt(s, key, j))
      && (r.None? ==> forall j: nat :: !KeywordAt(s, key, j))
  {
    hide Find, KeywordAt;
    FoundFrom(s, key, 0);
    assert s[..0] == [] && s[0..] == s;
  }

  // ---- comparison operators ----

  predicate PairAt(s: string, i: nat, pair: string) {
    i + 2 <= |s| && |pair| == 2 && s[i] == pair[0] && s[i + 1] == pair[1]
  }

  predicate AnyPairAt(s: string, i: nat) {
    PairAt(s, i, ">=") || PairAt(s, i, "<=") || PairAt(s, i, "!=") || PairAt(s, i, "<>")
  }

  /** An operator is written here: one of the pairs, or else a single character. */
  predicate WrittenAt(s: string, o: Operator) {
    && o.at < |s|
    && match o.op
       case Gte => o.len == 2 && PairAt(s, o.at, ">=")
       case Lte => o.len == 2 && PairAt(s, o.at, "<=")
       case NotEq => o.len == 2 && (PairAt(s, o.at, "!=") || PairAt(s, o.at, "<>"))
       case Eq => o.len == 1 && s[o.at] == '='
       case Gt => o.len == 1 && s[o.at] == '>' && !AnyPairAt(s, o.at)
       case Lt => o.len == 1 && s[o.at] == '<' && !AnyPairAt(s, o.at)
       case Like => false
  }

  predicate QuotedAt(s: string, i: nat)
    requires i <= |s|
  {
    After(START, s[..i]).quote != Outside
  }

  /** An operator stands at this place, outside quotes. */
  predicate OperatorAt(s: string, i: nat) {
    && i < |s| && !QuotedAt(s, i)
    && (AnyPairAt(s, i) || s[i] in {'=', '>', '<'})
  }

  lemma HereIsWritten(s: string, i: nat)
    requires i < |s|
    ensures OperatorHere(s[i..]).Some? <==> AnyPairAt(s, i) || s[i] in {'=', '>', '<'}
    ensures OperatorHere(s[i..]).Some? ==>
      WrittenAt(s, Operator(i, OperatorHere(s[i..]).value.0, OperatorHere(s[i..]).value.1))
  {
  }

  lemma QuoteWithoutDepth(st: Scan, c: char)
    ensures Step(Scan(st.quote, 0), c).quote == Step(st, c).quote
  {
  }

  lemma {:induction false} OperatorFrom(s: string, i: nat)
    requires i <= |s|
    ensures var r := FindOperator(After(START, s[..i]).quote, s[i..]);
      && (r.Some? ==> OperatorAt(s, i + r.value.at) && WrittenAt(s, Operator(i + r.value.at, r.value.len, r.value.op)))
      && forall j: nat :: i <= j && (r.Some? ==> j < i + r.value.at) ==> !OperatorAt(s, j)
    decreases |s| - i
  {
    hide After, Step, OperatorHere, WrittenAt, AnyPairAt;
    if i < |s| {
      var st := After(START, s[..i]);
      HereIsWritten(s, i);
      OperatorStep(st.quote, s, i);
      QuoteWithoutDepth(st, s[i]);
      AfterNext(s, i);
      OperatorFrom(s, i + 1);
    }
  }

  /** The operator found is the first one outside quotes, read as it is written. */
  lemma OperatorMeans(s: string)
    ensures var r := FindOperator(Outside, s);
      && (r.Some? ==> OperatorAt(s, r.value.at) && WrittenAt(s, r.value) && forall j: nat :: j < r.value.at ==> !OperatorAt(s, j))
      && (r.None? ==> forall j: nat :: !OperatorAt(s, j))
  {
    hide FindOperator, OperatorAt, WrittenAt;
    OperatorFrom(s, 0);
    assert s[..0] == [] && s[0..] == s;
  }

  // ---- literals ----

  /** The text between two quotes of this kind. */
  predicate QuotedText(q: char, token: string, v: Value) {
    |token| >= 2 && token[0] == q && token[|token| - 1] == q && v == Text(Undoubled(q, token[1..|token| - 1]))
  }

  /** A trimmed token denotes the value. */
  ghost predicate Denotes(token: string, v: Value) {
    || (v == Null && AnyCase(token, "NULL"))
    || (v == Bool(true) && AnyCase(token, "TRUE"))
    || (v == Bool(false) && AnyCase(token, "FALSE"))
    || (v.Int? && Spells(token, v.i))
    || QuotedText('\'', token, v) || QuotedText('"', token, v)
  }

  lemma NumeralStart(token: string, n: int)
    requires Spells(token, n)
    ensures token != [] && (Decimal.IsDigit(token[0]) || token[0] in {'+', '-'})
  {
    var digits :| IsNumeral(digits) && SpellsWith(token, n, digits);
    assert Decimal.IsDigit(digits[0]);
  }

  /** A literal is accepted exactly with the value its token denotes. */
  lemma LiteralMeans(input: string, v: Value)
    ensures ParseLiteral(input) == Ok(v) <==> Denotes(Trim(input), v)
  {
    hide Trim, Spells, Undoubled, SameIgnoringCase, Decimal.ParseI64;
    var token := Trim(input);
    IgnoringCaseIsAnyCase(token, "NULL");
    IgnoringCaseIsAnyCase(token, "TRUE");
    IgnoringCaseIsAnyCase(token, "FALSE");
    forall n: I64 ensures Decimal.ParseI64(token) == Some(n) <==> Spells(token, n) {
      ParsedIsSpelled(token, n);
    }
    if Decimal.ParseI64(token).Some? {
      NumeralStart(token, Decimal.ParseI64(token).value);
    }
    if v.Int? && Spells(token, v.i) {
      NumeralStart(token, v.i);
    }
  }

  // ---- identifiers ----

  /** The same characters, capitals made small. */
  predicate Lowered(s: string, name: string) {
    |name| == |s| && forall i :: 0 <= i < |s| ==> if 'A' <= s[i] <= 'Z' then name[i] as int == s[i] as int + 32 else name[i] == s[i]
  }

  predicate IdentifierLetter(c: char) {
    'a' <= c <= 'z' || 'A' <= c <= 'Z' || '0' <= c <= '9' || c == '_'
  }

  /** A trimmed token names the column: between double quotes as it is, bare in small letters. */
  predicate Names(token: string, name: string) {
    if |token| >= 2 && token[0] == '"' && token[|token| - 1] == '"' then token == "\"" + name + "\""
    else token != [] && (forall i :: 0 <= i < |token| ==> IdentifierLetter(token[i])) && Lowered(token, name)
  }

  lemma LowerIsLowered(s: string, name: string)
    ensures name == Lower(s) <==> Lowered(s, name)
  {
    var l := Lower(s);
    assert |name| == |s| ==> (name == l <==> forall i :: 0 <= i < |s| ==> name[i] == l[i]);
  }

  lemma IdentifierMeans(input: string, name: string)
    ensures Where.NormalizeIdentifier(input) == Ok(name) <==> Names(Trim(input), name)
  {
    hide Trim, Lower, Lowered;
    var token := Trim(input);
    LowerIsLowered(token, name);
    forall c ensures Where.IsIdentifierChar(c) <==> IdentifierLetter(c) {
    }
    if IsQuotedBy('"', token) {
      assert token == "\"" + token[1..|token| - 1] + "\"";
      assert token == "\"" + name + "\"" ==> token[1..|token| - 1] == name;
    }
  }
}
