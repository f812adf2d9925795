/**
 Printing a filter that is an OR of ANDs of leaves and parsing the text gives the filter back, nested as it was,
 AND binding tighter than OR, exactly when the parser's byte slices fall where they should.
 */
module WhereRoundTrip {
  import opened Types
  import opened Decimal
  import opened Text
  import opened Ast
  import opened Scanner
  import opened Words
  import opened Literals
  import opened Where

  // ---- printing ----

  const RESERVED := {"or", "and", "in", "not", "like", "is", "null"}

  predicate IsBareChar(c: char) {
    'a' <= c <= 'z' || IsDigit(c) || c == '_'
  }

  predicate IsBare(name: string) {
    name != [] && name !in RESERVED && forall i :: 0 <= i < |name| ==> IsBareChar(name[i])
  }

  /** A lower-case identifier that is no keyword is printed as it is, any other name between double quotes. */
  function PrintName(name: string): string {
    if IsBare(name) then name else "\"" + name + "\""
  }

  function PrintOp(op: CompareOp): string {
    match op
    case Eq => "="
    case NotEq => "!="
    case Gt => ">"
    case Gte => ">="
    case Lt => "<"
    case Lte => "<="
    case Like => "LIKE"
  }

  predicate IsLeaf(f: Filter) {
    f.Compare? || f.IsNull? || f.IsNotNull? || f.InList?
  }

  function LeafWords(q: char, f: Filter): seq<string>
    requires IsLeaf(f)
  {
    match f
    case Compare(column, op, value) => [PrintName(column), PrintOp(op), PrintLiteral(q, value)]
    case IsNull(column) => [PrintName(column), "IS", "NULL"]
    case IsNotNull(column) => [PrintName(column), "IS", "NOT", "NULL"]
    case InList(column, values, negated) =>
      [PrintName(column)] + (if negated then ["NOT", "IN"] else ["IN"]) + ["(" + PrintList(q, values) + ")"]
  }

  predicate AndChain(f: Filter) {
    if f.And? then AndChain(f.left) && IsLeaf(f.right) else IsLeaf(f)
  }

  predicate OrChain(f: Filter) {
    if f.Or? then OrChain(f.left) && AndChain(f.right) else AndChain(f)
  }

  /** The leaves of an AND chain, each as its words. */
  function AndChunks(q: char, f: Filter): (r: seq<seq<string>>)
    requires AndChain(f)
    ensures r != []
  {
    if f.And? then AndChunks(q, f.left) + [LeafWords(q, f.right)] else [LeafWords(q, f)]
  }

  function AndWords(q: char, f: Filter): seq<string>
    requires AndChain(f)
  {
    Chunked("AND", AndChunks(q, f))
  }

  function OrChunks(q: char, f: Filter): (r: seq<seq<string>>)
    requires OrChain(f)
    ensures r != []
  {
    if f.Or? then OrChunks(q, f.left) + [AndWords(q, f.right)] else [AndWords(q, f)]
  }

  /** The text of a filter: its leaves, joined by AND, joined by OR. */
  function Print(q: char, f: Filter): string
    requires OrChain(f)
  {
    Join(Chunked("OR", OrChunks(q, f)))
  }

  // ---- what can be printed, and what the parser survives ----

  /** No name holds a double quote, and every IN list has a value. */
  predicate Printable(f: Filter) {
    match f
    case Compare(column, _, _) => NameOk(column)
    case IsNull(column) => NameOk(column)
    case IsNotNull(column) => NameOk(column)
    case InList(column, values, _) => NameOk(column) && values != []
    case InSubquery(_, _, _) => false
    case And(left, right) => Printable(left) && Printable(right)
    case Or(left, right) => Printable(left) && Printable(right)
  }

  predicate NameOk(name: string) {
    '"' !in name
  }

  predicate IsAscii(s: string) {
    forall i :: 0 <= i < |s| ==> s[i] as int < 0x80
  }

  /** The sixth byte of a text, if it has one, ends a character. */
  predicate SixBytesWhole(text: string) {
    ByteLength(text) < 6 || CharsWithin(text, 6).Some?
  }

  /**
   The parser slices the text where it should: names before an operator are ASCII, and no IN list, as printed,
   has a character across its sixth byte.
   */
  predicate Sliceable(q: char, f: Filter) {
    match f
    case Compare(column, op, _) => op != CompareOp.Like ==> IsAscii(column)
    case InList(_, values, _) => SixBytesWhole(PrintList(q, values))
    case And(left, right) => Sliceable(q, left) && Sliceable(q, right)
    case Or(left, right) => Sliceable(q, left) && Sliceable(q, right)
    case _ => true
  }

  /** What the first slice that slips gives: a panic inside a character, a rejection between two. */
  function Slip(q: char, f: Filter): (r: Option<Error>)
    ensures r.None? <==> Sliceable(q, f)
  {
    match f
    case Compare(column, op, _) =>
      if op == CompareOp.Like || IsAscii(column) then None
      else if CharsWithin(PrintName(column), |PrintName(column)| + 1).None? then Some(Panicked)
      else Some(ParseError)
    case InList(_, values, _) => if SixBytesWhole(PrintList(q, values)) then None else Some(Panicked)
    case And(left, right) => if Slip(q, left).Some? then Slip(q, left) else Slip(q, right)
    case Or(left, right) => if Slip(q, left).Some? then Slip(q, left) else Slip(q, right)
    case _ => None
  }

  /** The filter itself when it is sliceable, else what its first slip gives. */
  function Reread(q: char, f: Filter): Result<Filter> {
    match Slip(q, f)
    case None => Ok(f)
    case Some(e) => Err(e)
  }

  // ---- words ----

  lemma BareIsPlain(name: string)
    requires IsBare(name)
    ensures Plain(name)
  {
  }

  lemma QuotedNameClosed(name: string)
    requires NameOk(name)
    ensures Closed("\"" + name + "\"")
  {
    var w := "\"" + name + "\"";
    QuoteFree(name);
    SilentAppend(Inside('"'), name, "\"");
    AfterAppend(Inside('"'), name, "\"");
    assert "\""[1..] == [];
    assert w == "\"" + (name + "\"") && w[1..] == name + "\"";
  }

  lemma {:induction false} QuoteFree(name: string)
    requires NameOk(name)
    ensures Silent(Inside('"'), name) && After(Inside('"'), name) == Inside('"')
    decreases |name|
  {
    if name != [] {
      QuoteFree(name[1..]);
    }
  }

  lemma NameIsWord(name: string)
    requires NameOk(name)
    ensures Word(PrintName(name))
  {
    if IsBare(name) {
      BareIsPlain(name);
    } else {
      QuotedNameClosed(name);
    }
  }

  /** No printed name reads as a keyword. */
  lemma NameIsNoKeyword(name: string, k: string)
    requires k in {"OR", "AND", "IN", "NOT", "LIKE", "IS", "NULL"}
    ensures !SameIgnoringCase(PrintName(name), k)
  {
    if IsBare(name) {
      if SameIgnoringCase(name, k) {
        BareIsLower(name, k);
        ReservedInLower(k);
      }
    } else {
      DifferentFirst(PrintName(name), k);
    }
  }

  lemma ReservedInLower(k: string)
    requires k in {"OR", "AND", "IN", "NOT", "LIKE", "IS", "NULL"}
    ensures Lower(k) in RESERVED
  {
    assert Lower("OR") == "or" && Lower("AND") == "and" && Lower("IN") == "in" && Lower("NOT") == "not";
    assert Lower("LIKE") == "like" && Lower("IS") == "is" && Lower("NULL") == "null";
  }

  lemma BareIsLower(name: string, k: string)
    requires IsBare(name) && SameIgnoringCase(name, k) && LetterWord(k) && Upper(k) == k
    ensures name == Lower(k)
  {
    assert |Upper(name)| == |Upper(k)|;
    assert |Lower(k)| == |name|;
    forall i | 0 <= i < |name| ensures name[i] == Lower(k)[i] {
      SameAt(name, k, i);
      assert Upper(k)[i] == k[i] && IsLetter(k[i]) && IsBareChar(name[i]);
    }
  }

  lemma LiteralIsNoKeyword(q: char, v: Value, k: string)
    requires IsQuote(q) && k in {"OR", "AND", "IN", "NOT", "LIKE", "IS"}
    ensures !SameIgnoringCase(PrintLiteral(q, v), k)
  {
    match v {
      case Int(i) =>
        PlainInt(i);
        DifferentFirst(IntToString(i), k);
      case Text(s) => DifferentFirst(Quoted(q, s), k);
      case Null => if k == "NOT" { SecondDiffers("NULL", k); } else { DifferentFirst("NULL", k); }
      case Bool(b) => DifferentFirst(if b then "TRUE" else "FALSE", k);
    }
  }

  lemma SecondDiffers(s: string, t: string)
    requires |s| > 1 && |t| > 1 && UpperChar(s[1]) != UpperChar(t[1])
    ensures !SameIgnoringCase(s, t)
  {
    assert Upper(s)[1] != Upper(t)[1];
  }

  lemma OpIsNoKeyword(op: CompareOp, k: string)
    requires k in {"OR", "AND", "IN", "NOT", "IS"} || (k == "LIKE" && op != CompareOp.Like)
    ensures !SameIgnoringCase(PrintOp(op), k) && Plain(PrintOp(op))
  {
    DifferentFirst(PrintOp(op), k);
  }

  /** A printed list is one closed word. */
  lemma ListIsWord(q: char, values: seq<Value>)
    requires IsQuote(q)
    ensures Closed("(" + PrintList(q, values) + ")")
  {
    var body, w := PrintList(q, values), "(" + PrintList(q, values) + ")";
    DeepList(q, values);
    SilentAppend(Scan(Outside, 1), body, ")");
    AfterAppend(Scan(Outside, 1), body, ")");
    assert ")"[1..] == [];
    assert w == "(" + (body + ")") && w[1..] == body + ")";
  }

  lemma {:induction false} DeepList(q: char, values: seq<Value>)
    requires IsQuote(q)
    ensures Silent(Scan(Outside, 1), PrintList(q, values)) && After(Scan(Outside, 1), PrintList(q, values)) == Scan(Outside, 1)
  {
    hide Silent, After, PrintLiteral;
    DeepNothing();
    if values != [] {
      var w := PrintLiteral(q, values[0]);
      DeepWord(q, values[0]);
      if |values| > 1 {
        DeepList(q, values[1..]);
        var rest := PrintList(q, values[1..]);
        DeepComma(rest);
        SilentAppend(Scan(Outside, 1), w, ", " + rest);
        AfterAppend(Scan(Outside, 1), w, ", " + rest);
        assert PrintList(q, values) == w + (", " + rest);
      }
    }
  }

  lemma DeepNothing()
    ensures Silent(Scan(Outside, 1), []) && After(Scan(Outside, 1), []) == Scan(Outside, 1)
  {
  }

  lemma DeepComma(rest: string)
    requires Silent(Scan(Outside, 1), rest)
    ensures Silent(Scan(Outside, 1), ", " + rest) && After(Scan(Outside, 1), ", " + rest) == After(Scan(Outside, 1), rest)
  {
    var text := ", " + rest;
    assert text[1..] == " " + rest && text[1..][1..] == rest;
  }

  lemma DeepWord(q: char, v: Value)
    requires IsQuote(q)
    ensures Silent(Scan(Outside, 1), PrintLiteral(q, v)) && After(Scan(Outside, 1), PrintLiteral(q, v)) == Scan(Outside, 1)
  {
    match v {
      case Text(s) => DeepQuoted(q, s);
      case Int(i) =>
        PlainInt(i);
        DeepPlain(IntToString(i));
      case Null => DeepPlain("NULL");
      case Bool(b) => DeepPlain(if b then "TRUE" else "FALSE");
    }
  }

  lemma {:induction false} DeepPlain(w: string)
    requires forall i :: 0 <= i < |w| ==> PlainChar(w[i])
    ensures Silent(Scan(Outside, 1), w) && After(Scan(Outside, 1), w) == Scan(Outside, 1)
    decreases |w|
  {
    if w != [] {
      DeepPlain(w[1..]);
    }
  }

  lemma DeepQuoted(q: char, s: string)
    requires IsQuote(q)
    ensures Silent(Scan(Outside, 1), Quoted(q, s)) && After(Scan(Outside, 1), Quoted(q, s)) == Scan(Outside, 1)
  {
    var body, inside := Doubled(q, s), Inside(q).(depth := 1);
    DeepDoubled(q, s);
    SilentAppend(inside, body, [q]);
    AfterAppend(inside, body, [q]);
    assert [q][1..] == [];
    assert Quoted(q, s) == [q] + (body + [q]) && Quoted(q, s)[1..] == body + [q];
  }

  lemma {:induction false} DeepDoubled(q: char, s: string)
    requires IsQuote(q)
    ensures var inside := Inside(q).(depth := 1);
      Silent(inside, Doubled(q, s)) && After(inside, Doubled(q, s)) == inside
  {
    if s != [] {
      DeepDoubled(q, s[1..]);
      var d, inside := Doubled(q, s), Inside(q).(depth := 1);
      if s[0] == q {
        assert d[1..][1..] == Doubled(q, s[1..]);
        assert Step(Step(inside, q), q) == inside;
        assert d[1..][0] == q;
      } else {
        assert d[1..] == Doubled(q, s[1..]);
        assert Step(inside, s[0]) == inside;
      }
    }
  }

  lemma LeafIsWords(q: char, f: Filter)
    requires IsQuote(q) && IsLeaf(f) && Printable(f)
    ensures LeafWords(q, f) != [] && AllWords(LeafWords(q, f))
  {
    hide Closed, PrintName, PrintList, PrintLiteral;
    NameIsWord(f.column);
    match f {
      case Compare(column, op, value) =>
        OpIsNoKeyword(op, "OR");
        LiteralIsWord(q, value);
      case InList(column, values, negated) =>
        ListIsWord(q, values);
        assert Plain("NOT") && Plain("IN");
      case IsNull(_) =>
        assert Plain("IS") && Plain("NULL");
      case IsNotNull(_) =>
        assert Plain("IS") && Plain("NOT") && Plain("NULL");
    }
  }

  lemma ListIsNoKeyword(body: string, k: string)
    requires LetterWord(k)
    ensures !SameIgnoringCase("(" + body + ")", k)
  {
    assert IsLetter(k[0]);
    DifferentFirst("(" + body + ")", k);
  }

  /** No word of a leaf separates expressions. */
  lemma LeafIsChunk(q: char, f: Filter, k: string)
    requires IsQuote(q) && IsLeaf(f) && Printable(f) && k in {"OR", "AND"}
    ensures Chunk(k, LeafWords(q, f))
  {
    hide AllWords, PrintName, PrintList, PrintLiteral;
    LeafIsWords(q, f);
    NameIsNoKeyword(f.column, k);
    DifferentFirst("IS", k);
    DifferentFirst("NOT", k);
    DifferentFirst("NULL", k);
    DifferentFirst("IN", k);
    match f {
      case Compare(column, op, value) =>
        OpIsNoKeyword(op, k);
        LiteralIsNoKeyword(q, value, k);
      case InList(column, values, negated) =>
        ListIsNoKeyword(PrintList(q, values), k);
      case IsNull(_) =>
      case IsNotNull(_) =>
    }
  }

  // ---- one leaf ----

  lemma {:induction false} StartsHas(words: seq<string>, kws: seq<string>, k: string)
    requires k in kws && StartsWith(words, kws)
    ensures exists i :: 0 <= i < |words| && SameIgnoringCase(words[i], k)
  {
    hide SameIgnoringCase;
    if k == kws[0] {
      assert SameIgnoringCase(words[0], k);
    } else {
      assert k in kws[1..];
      StartsHas(words[1..], kws[1..], k);
      var i :| 0 <= i < |words[1..]| && SameIgnoringCase(words[1..][i], k);
      assert SameIgnoringCase(words[i + 1], k);
    }
  }

  /** Without one of the keywords among the words there is no match. */
  lemma {:induction false} NoMatch(words: seq<string>, kws: seq<string>, k: string)
    requires k in kws && forall i :: 0 <= i < |words| ==> !SameIgnoringCase(words[i], k)
    ensures FirstMatch(kws, words) == None
  {
    hide SameIgnoringCase;
    if words != [] {
      if StartsWith(words, kws) {
        StartsHas(words, kws, k);
      }
      assert forall i :: 0 <= i < |words[1..]| ==> words[1..][i] == words[i + 1];
      NoMatch(words[1..], kws, k);
    }
  }

  lemma NotFound(words: seq<string>, kws: seq<string>, k: string)
    requires Keywords(kws) && words != [] && AllWords(words)
    requires k in kws && forall i :: 0 <= i < |words| ==> !SameIgnoringCase(words[i], k)
    ensures Search(Join(kws), Join(words)) == None
  {
    hide Find, SameIgnoringCase, AllWords, Keywords, Join, FirstMatch;
    FindAmongWords(kws, words, None);
    NoMatch(words, kws, k);
  }

  /** Keywords that are the words from the second on are found behind the first word and a space. */
  lemma FoundSecond(name: string, more: seq<string>, kws: seq<string>)
    requires kws != [] && Keywords(kws) && more != [] && AllWords([name] + more)
    requires !SameIgnoringCase(name, kws[0]) && StartsWith(more, kws)
    ensures Search(Join(kws), Join([name] + more)) == Some(|name| + 1)
  {
    hide Find, SameIgnoringCase, AllWords, Keywords, Join, StartsWith;
    var words := [name] + more;
    FindAmongWords(kws, words, None);
    assert words[0] == name && words[1..] == more;
    StartsWithFirst(words, kws);
    assert FirstMatch(kws, more) == Some(0);
    assert Offset(more, 0) == 0;
    assert Offset(words, 1) == |name| + 1;
  }

  lemma StartsWithFirst(words: seq<string>, kws: seq<string>)
    requires words != [] && kws != [] && !SameIgnoringCase(words[0], kws[0])
    ensures !StartsWith(words, kws)
  {
  }

  lemma JoinedKeywords()
    ensures Join(["IS", "NOT", "NULL"]) == "IS NOT NULL" && Keywords(["IS", "NOT", "NULL"])
    ensures Join(["IS", "NULL"]) == "IS NULL" && Keywords(["IS", "NULL"])
    ensures Join(["NOT", "IN"]) == "NOT IN" && Keywords(["NOT", "IN"])
    ensures Join(["IN"]) == "IN" && Keywords(["IN"])
    ensures Join(["LIKE"]) == "LIKE" && Keywords(["LIKE"])
  {
    hide Join, Keywords;
    ShortKeywords("IS", "NOT", "NULL");
    ShortKeywords("IS", "NULL", "NULL");
    ShortKeywords("NOT", "IN", "IN");
    ShortKeywords("LIKE", "IN", "IN");
    assert "IS" + " " + "NULL" == "IS NULL" && "NOT" + " " + "IN" == "NOT IN";
    assert "IS" + " " + ("NOT" + " " + "NULL") == "IS NOT NULL";
  }

  lemma ShortKeywords(a: string, b: string, c: string)
    requires LetterWord(a) && LetterWord(b) && LetterWord(c)
    ensures Join([a, b, c]) == a + " " + (b + " " + c) && Keywords([a, b, c])
    ensures Join([a, b]) == a + " " + b && Keywords([a, b])
    ensures Join([a]) == a && Keywords([a]) && Join([b]) == b && Keywords([b])
  {
    assert [a, b, c][1..] == [b, c];
    assert [b, c][1..] == [c];
    assert [a, b][1..] == [b];
    JoinOne(b);
    JoinOne(c);
    assert Join([b, c]) == b + " " + c;
    assert Join([a, b]) == a + " " + b;
  }

  lemma NameRoundTrip(name: string)
    requires NameOk(name)
    ensures NormalizeIdentifier(PrintName(name)) == Ok(name)
  {
    hide Trim, Word, Tight, IsBareChar, IsIdentifierChar, Lower;
    var w := PrintName(name);
    NameIsWord(name);
    WordIsTight(w);
    TrimTight([], w, []);
    assert [] + w + [] == w;
    if IsBare(name) {
      BareReads(name);
    } else {
      assert w[1..|w| - 1] == name;
    }
  }

  lemma BareReads(name: string)
    requires IsBare(name)
    ensures Lower(name) == name && !IsQuotedBy('"', name)
    ensures forall i :: 0 <= i < |name| ==> IsIdentifierChar(name[i])
  {
    forall i | 0 <= i < |name| ensures LowerChar(name[i]) == name[i] && IsIdentifierChar(name[i]) && name[i] != '"' {
      assert IsBareChar(name[i]);
    }
  }

  /** The name before a keyword or operator, as the parser slices and trims it. */
  lemma NameBefore(name: string, t: string)
    requires NameOk(name) && |t| > |PrintName(name)| && t[..|PrintName(name)| + 1] == PrintName(name) + " "
    ensures NormalizeIdentifier(Trim(t[..|PrintName(name)| + 1])) == Ok(name)
  {
    hide Trim, NormalizeIdentifier, PrintName;
    NameIsWord(name);
    WordIsTight(PrintName(name));
    TrimTight([], PrintName(name), " ");
    assert [] + PrintName(name) + " " == PrintName(name) + " ";
    NameRoundTrip(name);
  }

  /** The last word, after a space. */
  lemma WordAfter(w: string, t: string, at: nat)
    requires Word(w) && at <= |t| && t[at..] == " " + w
    ensures Trim(t[at..]) == w
  {
    WordIsTight(w);
    TrimTight(" ", w, []);
    assert " " + w + [] == " " + w;
  }

  lemma TrimmedWords(words: seq<string>)
    requires words != [] && AllWords(words)
    ensures Trim(Join(words)) == Join(words) && Join(words) != []
  {
    hide Trim;
    JoinTight(words);
    TrimTight([], Join(words), []);
    assert [] + Join(words) + [] == Join(words);
  }

  /** The text of a leaf: its name, a space, and its other words. */
  lemma LeafText(name: string, more: seq<string>)
    requires more != []
    ensures var t := Join([name] + more);
      && t == name + " " + Join(more)
      && t[..|name| + 1] == name + " " && t[|name| + 1..] == Join(more)
  {
    assert ([name] + more)[1..] == more;
  }

  lemma IsNullRoundTrip(select: SelectParser, q: char, f: Filter)
    requires IsQuote(q) && f.IsNull? && Printable(f)
    ensures ParseLeaf(select, Join(LeafWords(q, f))) == Ok(f)
  {
    hide Search, Trim, NormalizeIdentifier, PrintName, AllWords, Keywords, SameIgnoringCase;
    var name, words := PrintName(f.column), LeafWords(q, f);
    var t, more := Join(words), ["IS", "NULL"];
    LeafIsWords(q, f);
    TrimmedWords(words);
    JoinedKeywords();
    assert words == [name] + more;
    NameIsNoKeyword(f.column, "NOT");
    NameIsNoKeyword(f.column, "IS");
    WordsDiffer();
    NotFound(words, ["IS", "NOT", "NULL"], "NOT");
    assert StartsWith(more, more) by { StartsWithItself(more); }
    FoundSecond(name, more, more);
    LeafText(name, more);
    NameBefore(f.column, t);
    assert t[|name| + 1 + 7..] == [];
    TrimNothing();
  }

  lemma IsNotNullRoundTrip(select: SelectParser, q: char, f: Filter)
    requires IsQuote(q) && f.IsNotNull? && Printable(f)
    ensures ParseLeaf(select, Join(LeafWords(q, f))) == Ok(f)
  {
    hide Search, Trim, NormalizeIdentifier, PrintName, AllWords, Keywords, SameIgnoringCase;
    var name, words := PrintName(f.column), LeafWords(q, f);
    var t, more := Join(words), ["IS", "NOT", "NULL"];
    LeafIsWords(q, f);
    TrimmedWords(words);
    JoinedKeywords();
    assert words == [name] + more;
    NameIsNoKeyword(f.column, "IS");
    assert StartsWith(more, more) by { StartsWithItself(more); }
    FoundSecond(name, more, more);
    LeafText(name, more);
    NameBefore(f.column, t);
    assert t[|name| + 1 + 11..] == [];
    TrimNothing();
  }

  lemma TrimNothing()
    ensures Trim([]) == []
  {
  }

  lemma {:induction false} StartsWithItself(kws: seq<string>)
    ensures StartsWith(kws, kws)
  {
    if kws != [] {
      StartsWithItself(kws[1..]);
    }
  }

  /** The keywords of the grammar are different words. */
  lemma WordsDiffer()
    ensures !SameIgnoringCase("IS", "NOT") && !SameIgnoringCase("NULL", "NOT") && !SameIgnoringCase("IN", "NOT")
    ensures !SameIgnoringCase("IN", "IS") && !SameIgnoringCase("NOT", "IS") && !SameIgnoringCase("LIKE", "IS")
    ensures !SameIgnoringCase("LIKE", "NOT") && !SameIgnoringCase("LIKE", "IN")
  {
    SecondDiffers("IS", "NOT");
    SecondDiffers("NULL", "NOT");
    SecondDiffers("IN", "NOT");
    SecondDiffers("IN", "IS");
    DifferentFirst("NOT", "IS");
    DifferentFirst("LIKE", "IS");
    DifferentFirst("LIKE", "NOT");
    DifferentFirst("LIKE", "IN");
  }

  // ---- IN ----

  lemma InListFound(q: char, f: Filter)
    requires IsQuote(q) && f.InList? && Printable(f)
    ensures var (t, name) := (Join(LeafWords(q, f)), PrintName(f.column));
      && Search("IS NOT NULL", t) == None && Search("IS NULL", t) == None
      && (if f.negated then Search("NOT IN", t) == Some(|name| + 1)
          else Search("NOT IN", t) == None && Search("IN", t) == Some(|name| + 1))
  {
    hide Search, PrintName, PrintList, AllWords, Keywords, SameIgnoringCase;
    var name, words := PrintName(f.column), LeafWords(q, f);
    var list := "(" + PrintList(q, f.values) + ")";
    var kws := if f.negated then ["NOT", "IN"] else ["IN"];
    var more := kws + [list];
    LeafIsWords(q, f);
    JoinedKeywords();
    assert words == [name] + more;
    NameIsNoKeyword(f.column, "IS");
    NameIsNoKeyword(f.column, "NOT");
    NameIsNoKeyword(f.column, "IN");
    ListIsNoKeyword(PrintList(q, f.values), "IS");
    ListIsNoKeyword(PrintList(q, f.values), "NOT");
    WordsDiffer();
    NotFound(words, ["IS", "NOT", "NULL"], "IS");
    NotFound(words, ["IS", "NULL"], "IS");
    StartsWithFront(kws, list);
    FoundSecond(name, more, kws);
    if !f.negated {
      NotFound(words, ["NOT", "IN"], "NOT");
    }
  }

  lemma {:induction false} StartsWithFront(kws: seq<string>, last: string)
    ensures StartsWith(kws + [last], kws)
  {
    if kws != [] {
      assert (kws + [last])[1..] == kws[1..] + [last];
      StartsWithFront(kws[1..], last);
    }
  }

  lemma {:induction false} CharsWithinAscii(s: string, n: nat)
    requires n <= |s| && forall i :: 0 <= i < n ==> s[i] as int < 0x80
    ensures CharsWithin(s, n) == Some(n)
  {
    if n > 0 {
      CharsWithinAscii(s[1..], n - 1);
    }
  }

  /** A printed list does not start like a SELECT. */
  lemma ListIsNoSelect(q: char, values: seq<Value>)
    requires IsQuote(q) && values != []
    ensures StripPrefix(PrintList(q, values), "SELECT")
      == if SixBytesWhole(PrintList(q, values)) then Absent else CutsCharacter
  {
    var body := PrintList(q, values);
    var w := PrintLiteral(q, values[0]);
    LiteralIsWord(q, values[0]);
    WordIsTight(w);
    assert body != [] && body[0] == w[0];
    assert UpperChar(w[0]) != 'S' by {
      if values[0].Int? {
        PlainInt(values[0].i);
      }
    }
    var k := CharsWithin(body, 6);
    if k.Some? && k.value > 0 {
      DifferentFirst(body[..k.value], "SELECT");
    }
  }

  lemma ListIsTight(q: char, values: seq<Value>)
    requires IsQuote(q) && values != []
    ensures Tight(PrintList(q, values))
    decreases |values|
  {
    LiteralIsWord(q, values[0]);
    WordIsTight(PrintLiteral(q, values[0]));
    if |values| > 1 {
      ListIsTight(q, values[1..]);
    }
  }

  lemma InListRoundTrip(select: SelectParser, q: char, f: Filter)
    requires IsQuote(q) && f.InList? && Printable(f)
    ensures ParseLeaf(select, Join(LeafWords(q, f))) == Reread(q, f)
  {
    hide Search, Trim, NormalizeIdentifier, PrintName, PrintList, AllWords, SameIgnoringCase, ParseList, StripPrefix, InTest;
    var name, words := PrintName(f.column), LeafWords(q, f);
    var t, key := Join(words), if f.negated then "NOT IN" else "IN";
    LeafIsWords(q, f);
    TrimmedWords(words);
    InListFound(q, f);
    InListText(q, f);
    InListTest(select, q, f, t, key);
  }

  lemma InListText(q: char, f: Filter)
    requires IsQuote(q) && f.InList? && Printable(f)
    ensures var (t, name, key) := (Join(LeafWords(q, f)), PrintName(f.column), if f.negated then "NOT IN" else "IN");
      && |name| + 1 + |key| <= |t| && t[..|name| + 1] == name + " "
      && t[|name| + 1 + |key|..] == " " + ("(" + PrintList(q, f.values) + ")")
  {
    hide PrintName, PrintList, Join;
    var name, list := PrintName(f.column), "(" + PrintList(q, f.values) + ")";
    var kws, key := if f.negated then ["NOT", "IN"] else ["IN"], if f.negated then "NOT IN" else "IN";
    JoinedKeywords();
    LeafText(name, kws + [list]);
    JoinAppend(kws, [list]);
    JoinOne(list);
    assert LeafWords(q, f) == [name] + (kws + [list]);
    CutOut(name, key, list);
  }

  lemma JoinOne(w: string)
    ensures Join([w]) == w
  {
  }

  lemma InListTest(select: SelectParser, q: char, f: Filter, t: string, key: string)
    requires IsQuote(q) && f.InList? && Printable(f)
    requires var name := PrintName(f.column);
      && |name| + 1 + |key| <= |t| && t[..|name| + 1] == name + " "
      && t[|name| + 1 + |key|..] == " " + ("(" + PrintList(q, f.values) + ")")
    ensures InTest(select, t, key, |PrintName(f.column)| + 1, f.negated) == Reread(q, f)
  {
    hide Trim, NormalizeIdentifier, PrintName, PrintList, ParseList, StripPrefix, SixBytesWhole, Closed;
    var name, body := PrintName(f.column), PrintList(q, f.values);
    var list := "(" + body + ")";
    NameBefore(f.column, t);
    ListIsWord(q, f.values);
    WordAfter(list, t, |name| + 1 + |key|);
    assert list[1..|list| - 1] == body;
    ListIsTight(q, f.values);
    TrimTight([], body, []);
    assert [] + body + [] == body;
    ListIsNoSelect(q, f.values);
    ListRoundTrip(q, f.values);
  }

  // ---- comparisons ----

  lemma ComparisonHasNo(q: char, f: Filter, k: string)
    requires IsQuote(q) && f.Compare? && (k == "IS" || k == "IN" || (k == "LIKE" && f.op != CompareOp.Like))
    ensures forall i :: 0 <= i < |LeafWords(q, f)| ==> !SameIgnoringCase(LeafWords(q, f)[i], k)
  {
    hide SameIgnoringCase, PrintName, PrintLiteral;
    NameIsNoKeyword(f.column, k);
    OpIsNoKeyword(f.op, k);
    LiteralIsNoKeyword(q, f.value, k);
  }

  lemma CompareFound(q: char, f: Filter)
    requires IsQuote(q) && f.Compare? && Printable(f)
    ensures var (t, name) := (Join(LeafWords(q, f)), PrintName(f.column));
      && Search("IS NOT NULL", t) == None && Search("IS NULL", t) == None
      && Search("NOT IN", t) == None && Search("IN", t) == None
      && Search("LIKE", t) == if f.op == CompareOp.Like then Some(|name| + 1) else None
  {
    hide Search, PrintName, PrintLiteral, AllWords, Keywords, SameIgnoringCase;
    var name, words := PrintName(f.column), LeafWords(q, f);
    var more := [PrintOp(f.op), PrintLiteral(q, f.value)];
    LeafIsWords(q, f);
    JoinedKeywords();
    assert words == [name] + more;
    ComparisonHasNo(q, f, "IS");
    ComparisonHasNo(q, f, "IN");
    NotFound(words, ["IS", "NOT", "NULL"], "IS");
    NotFound(words, ["IS", "NULL"], "IS");
    NotFound(words, ["NOT", "IN"], "IN");
    NotFound(words, ["IN"], "IN");
    NameIsNoKeyword(f.column, "LIKE");
    if f.op == CompareOp.Like {
      StartsWithFront(["LIKE"], PrintLiteral(q, f.value));
      assert more == ["LIKE"] + [PrintLiteral(q, f.value)];
      FoundSecond(name, more, ["LIKE"]);
    } else {
      ComparisonHasNo(q, f, "LIKE");
      NotFound(words, ["LIKE"], "LIKE");
    }
  }

  lemma {:induction false} BareHidesOperators(name: string, rest: string)
    requires forall i :: 0 <= i < |name| ==> IsBareChar(name[i])
    ensures FindOperator(Outside, name + rest) == Moved(|name|, FindOperator(Outside, rest))
    decreases |name|
  {
    if name == [] {
      assert name + rest == rest;
    } else {
      assert (name + rest)[1..] == name[1..] + rest;
      assert IsBareChar(name[0]);
      BareHidesOperators(name[1..], rest);
    }
  }

  lemma {:induction false} QuotesHideOperators(name: string, rest: string)
    requires forall i :: 0 <= i < |name| ==> name[i] != '"'
    ensures FindOperator(Double, name + "\"" + rest) == Moved(|name| + 1, FindOperator(Outside, rest))
    decreases |name|
  {
    if name == [] {
      assert (name + "\"" + rest)[1..] == rest;
    } else {
      assert (name + "\"" + rest)[1..] == name[1..] + "\"" + rest;
      QuotesHideOperators(name[1..], rest);
    }
  }

  lemma NameHidesOperators(name: string, rest: string)
    requires NameOk(name)
    ensures FindOperator(Outside, PrintName(name) + rest) == Moved(|PrintName(name)|, FindOperator(Outside, rest))
  {
    if IsBare(name) {
      BareHidesOperators(name, rest);
    } else {
      var text := PrintName(name) + rest;
      assert text[1..] == name + "\"" + rest;
      QuotesHideOperators(name, rest);
    }
  }

  lemma OperatorFound(op: CompareOp, rest: string)
    requires op != CompareOp.Like
    ensures FindOperator(Outside, " " + (PrintOp(op) + " " + rest)) == Some(Operator(1, |PrintOp(op)|, op))
  {
    var text := PrintOp(op) + " " + rest;
    assert (" " + text)[1..] == text;
    assert OperatorHere(" " + text).None?;
    assert text[..|PrintOp(op)|] == PrintOp(op) && text[|PrintOp(op)|] == ' ';
    assert text[0] == PrintOp(op)[0];
    assert text[1] == if |PrintOp(op)| > 1 then PrintOp(op)[1] else ' ';
  }

  lemma CompareText(q: char, f: Filter)
    requires IsQuote(q) && f.Compare? && Printable(f)
    ensures var (t, name, op, value) :=
        (Join(LeafWords(q, f)), PrintName(f.column), PrintOp(f.op), PrintLiteral(q, f.value));
      && t == name + (" " + (op + " " + value))
      && |name| + 1 + |op| <= |t| && t[..|name| + 1] == name + " " && t[|name| + 1 + |op|..] == " " + value
  {
    hide PrintName, PrintLiteral, PrintOp, Join;
    var name, op, value := PrintName(f.column), PrintOp(f.op), PrintLiteral(q, f.value);
    LeafText(name, [op] + [value]);
    JoinAppend([op], [value]);
    JoinOne(op);
    JoinOne(value);
    assert LeafWords(q, f) == [name] + ([op] + [value]);
    CutOut(name, op, value);
    assert name + " " + (op + " " + value) == name + (" " + (op + " " + value));
  }

  lemma LikeRoundTrip(select: SelectParser, q: char, f: Filter)
    requires IsQuote(q) && f.Compare? && f.op == CompareOp.Like && Printable(f)
    ensures ParseLeaf(select, Join(LeafWords(q, f))) == Ok(f)
  {
    hide Search, Trim, NormalizeIdentifier, PrintName, PrintLiteral, AllWords, ParseLiteral;
    var name, words := PrintName(f.column), LeafWords(q, f);
    var t, value := Join(words), PrintLiteral(q, f.value);
    LeafIsWords(q, f);
    TrimmedWords(words);
    CompareFound(q, f);
    CompareText(q, f);
    NameBefore(f.column, t);
    LiteralIsWord(q, f.value);
    WordAfter(value, t, |name| + 1 + 4);
    LiteralRoundTrip(q, f.value);
  }

  /** What is parsed of a comparison: the operator behind the name, at its position in characters. */
  lemma OperatorIsFound(select: SelectParser, q: char, f: Filter)
    requires IsQuote(q) && f.Compare? && f.op != CompareOp.Like && Printable(f)
    ensures var t := Join(LeafWords(q, f));
      ParseLeaf(select, t) == OperatorAtBytes(t, Operator(|PrintName(f.column)| + 1, |PrintOp(f.op)|, f.op))
  {
    hide Search, Trim, PrintName, PrintLiteral, PrintOp, AllWords, FindOperator, OperatorAtBytes;
    var words := LeafWords(q, f);
    LeafIsWords(q, f);
    TrimmedWords(words);
    CompareFound(q, f);
    CompareText(q, f);
    NameHidesOperators(f.column, " " + (PrintOp(f.op) + " " + PrintLiteral(q, f.value)));
    OperatorFound(f.op, PrintLiteral(q, f.value));
  }

  lemma AsciiNameRoundTrip(select: SelectParser, q: char, f: Filter)
    requires IsQuote(q) && f.Compare? && f.op != CompareOp.Like && Printable(f) && IsAscii(f.column)
    ensures ParseLeaf(select, Join(LeafWords(q, f))) == Ok(f)
  {
    hide Trim, NormalizeIdentifier, PrintName, PrintLiteral, PrintOp, ParseLiteral, ParseLeaf, CharsWithin;
    var name, t := PrintName(f.column), Join(LeafWords(q, f));
    var op, value := PrintOp(f.op), PrintLiteral(q, f.value);
    OperatorIsFound(select, q, f);
    CompareText(q, f);
    NameBefore(f.column, t);
    LiteralIsWord(q, f.value);
    WordAfter(value, t, |name| + 1 + |op|);
    LiteralRoundTrip(q, f.value);
    FrontIsAscii(f.column, f.op, value, t);
    CharsWithinAscii(t, |name| + 1);
    CharsWithinAscii(t, |name| + 1 + |op|);
  }

  lemma FrontIsAscii(name: string, op: CompareOp, value: string, t: string)
    requires IsAscii(name) && t == PrintName(name) + (" " + (PrintOp(op) + " " + value))
    ensures |PrintName(name)| + 1 + |PrintOp(op)| <= |t|
    ensures forall i :: 0 <= i < |PrintName(name)| + 1 + |PrintOp(op)| ==> t[i] as int < 0x80
  {
    hide PrintOp, PrintName;
    var front := PrintName(name) + " " + PrintOp(op);
    OpIsAscii(op);
    NameIsAscii(name);
    assert t == front + (" " + value);
    assert forall i :: 0 <= i < |front| ==> t[i] == front[i];
  }

  lemma OpIsAscii(op: CompareOp)
    ensures IsAscii(PrintOp(op))
  {
  }

  lemma NameIsAscii(name: string)
    requires IsAscii(name)
    ensures IsAscii(PrintName(name))
  {
    hide IsBare;
  }

  // ---- a name with a character of several bytes ----

  lemma {:induction false} ManyBytes(s: string)
    ensures ByteLength(s) >= |s|
    ensures !IsAscii(s) ==> ByteLength(s) > |s|
  {
    if s != [] {
      ManyBytes(s[1..]);
      if !IsAscii(s) && s[0] as int < 0x80 {
        var i :| 0 <= i < |s| && s[i] as int >= 0x80;
        assert s[1..][i - 1] == s[i];
      }
    }
  }

  /** Slicing after n bytes of a text whose front has as many bytes, or more. */
  lemma {:induction false} CharsWithinFront(front: string, rest: string, n: nat)
    requires n <= ByteLength(front)
    ensures CharsWithin(front + rest, n) == CharsWithin(front, n)
    ensures n == ByteLength(front) ==> CharsWithin(front, n) == Some(|front|)
    ensures n < ByteLength(front) && CharsWithin(front, n).Some? ==> CharsWithin(front, n).value < |front|
    decreases |front|
  {
    var text := front + rest;
    if front == [] {
    } else {
      assert text[1..] == front[1..] + rest;
      if 0 < n && Utf8Length(front[0]) <= n {
        CharsWithinFront(front[1..], rest, n - Utf8Length(front[0]));
      }
    }
  }

  /** A quoted name cut before its closing quote is no identifier. */
  lemma CutNameFails(name: string, k: nat)
    requires NameOk(name) && k < |name| + 2
    ensures var w := "\"" + name + "\""; NormalizeIdentifier(Trim(w[..k])) == Err(ParseError)
  {
    var w := "\"" + name + "\"";
    var cut := w[..k];
    if k > 0 {
      assert cut[0] == '"' && forall i :: 0 < i < k ==> cut[i] != '"';
      CutStaysCut(cut);
    } else {
      assert cut == [];
      TrimNothing();
    }
  }

  lemma CutStaysCut(cut: string)
    requires cut != [] && cut[0] == '"' && forall i :: 0 < i < |cut| ==> cut[i] != '"'
    ensures NormalizeIdentifier(Trim(cut)) == Err(ParseError)
  {
    assert TrimStart(cut) == cut;
    TrimEndPrefix(cut);
    var ident := Trim(cut);
    assert ident == cut[..|ident|];
    TrimNothing();
    if ident != [] {
      assert Tight(ident);
      hide Trim;
      TrimTight([], ident, []);
      assert [] + ident + [] == ident;
      assert !IsIdentifierChar(ident[0]);
      assert |ident| > 1 ==> ident[|ident| - 1] == cut[|ident| - 1] != '"';
      assert !IsQuotedBy('"', ident);
    }
  }

  lemma {:induction false} TrimEndPrefix(s: string)
    ensures |TrimEnd(s)| <= |s| && TrimEnd(s) == s[..|TrimEnd(s)|]
    ensures TrimEnd(s) != [] ==> !IsWhitespace(TrimEnd(s)[|TrimEnd(s)| - 1])
  {
    if s != [] && IsWhitespace(s[|s| - 1]) {
      TrimEndPrefix(s[..|s| - 1]);
    }
  }

  /** What is left of the operator, before the value, makes it no literal. */
  lemma OperatorIsNoLiteral(c: char, value: string)
    requires c in {'=', '<', '>'} && Tight(value)
    ensures ParseLiteral(Trim([c] + (" " + value))) == Err(ParseError)
  {
    hide Trim, Undoubled, SameIgnoringCase, ParseI64;
    var text := [c] + (" " + value);
    SignIsNoNumber(text);
    assert text[|text| - 1] == value[|value| - 1];
    TrimTight([], text, []);
    assert [] + text + [] == text;
    DifferentFirst(text, "NULL");
    DifferentFirst(text, "TRUE");
    DifferentFirst(text, "FALSE");
  }

  lemma SignIsNoNumber(text: string)
    requires text != [] && text[0] in {'=', '<', '>'}
    ensures ParseI64(text).None?
  {
    assert !IsDigit(text[0]);
  }

  /** A name with a character of several bytes before an operator: the parser cuts too early, and panics or rejects. */
  lemma WideNameFails(select: SelectParser, q: char, f: Filter)
    requires IsQuote(q) && f.Compare? && f.op != CompareOp.Like && Printable(f) && !IsAscii(f.column)
    ensures ParseLeaf(select, Join(LeafWords(q, f))) == Reread(q, f)
  {
    hide Trim, NormalizeIdentifier, PrintLiteral, PrintOp, ParseLiteral, ParseLeaf, CharsWithin, ByteLength;
    var name, t := PrintName(f.column), Join(LeafWords(q, f));
    var op, value := PrintOp(f.op), PrintLiteral(q, f.value);
    OperatorIsFound(select, q, f);
    CompareText(q, f);
    WideIsQuoted(f.column);
    ManyBytes(name);
    CharsWithinFront(name, " " + (op + " " + value), |name| + 1);
    var before := CharsWithin(t, |name| + 1);
    if before.Some? && before.value < |name| {
      assert t[..before.value] == name[..before.value];
      CutNameFails(f.column, before.value);
    } else if before.Some? {
      LiteralIsWord(q, f.value);
      WordIsTight(value);
      OneByteShort(name, f.op, value, t);
      assert t[..|name|] == name;
      NameAlone(f.column);
    }
  }

  lemma NameAlone(name: string)
    requires NameOk(name)
    ensures NormalizeIdentifier(Trim(PrintName(name))) == Ok(name)
  {
    hide Trim, NormalizeIdentifier, PrintName;
    NameIsWord(name);
    WordIsTight(PrintName(name));
    TrimTight([], PrintName(name), []);
    assert [] + PrintName(name) + [] == PrintName(name);
    NameRoundTrip(name);
  }

  lemma WideIsQuoted(name: string)
    requires !IsAscii(name)
    ensures PrintName(name) == "\"" + name + "\"" && !IsAscii(PrintName(name))
  {
    var i :| 0 <= i < |name| && name[i] as int >= 0x80;
    assert !IsBareChar(name[i]);
    assert PrintName(name)[i + 1] == name[i];
  }

  /** With one byte more than characters the name is whole, and the operator's last character starts the value. */
  lemma OneByteShort(name: string, op: CompareOp, value: string, t: string)
    requires op != CompareOp.Like && Tight(value) && t == name + (" " + (PrintOp(op) + " " + value))
    requires ByteLength(name) == |name| + 1
    ensures var after := CharsWithin(t, |name| + 1 + |PrintOp(op)|);
      after.Some? && ParseLiteral(Trim(t[after.value..])) == Err(ParseError)
  {
    hide Trim, ParseLiteral, PrintOp, Tight, CharsWithin, ByteLength;
    var n := |PrintOp(op)|;
    OpBytes(op);
    var head, last := PrintOp(op)[..n - 1], PrintOp(op)[n - 1..];
    var front, back := name + " " + head, last + (" " + value);
    Regroup(name, head, last, value);
    assert PrintOp(op) == head + last;
    BytesAppend(name + " ", head);
    BytesAppend(name, " ");
    CharsWithinFront(front, back, |name| + 1 + n);
    assert (front + back)[|front|..] == back;
    OperatorIsNoLiteral(last[0], value);
    assert last == [last[0]];
  }

  lemma Regroup(name: string, head: string, last: string, value: string)
    ensures name + (" " + (head + last + " " + value)) == name + " " + head + (last + (" " + value))
  {
  }

  lemma {:induction false} BytesAppend(s: string, t: string)
    ensures ByteLength(s + t) == ByteLength(s) + ByteLength(t)
  {
    if s == [] {
      assert s + t == t;
    } else {
      assert (s + t)[1..] == s[1..] + t;
      BytesAppend(s[1..], t);
    }
  }

  lemma OpBytes(op: CompareOp)
    requires op != CompareOp.Like
    ensures var n := |PrintOp(op)|; 0 < n && ByteLength(PrintOp(op)[..n - 1]) == n - 1 && ByteLength(" ") == 1
    ensures PrintOp(op)[|PrintOp(op)| - 1] in {'=', '<', '>'}
  {
    assert " "[1..] == [];
    if |PrintOp(op)| == 2 {
      assert PrintOp(op)[..1][1..] == [];
    }
  }

  lemma CompareRoundTrip(select: SelectParser, q: char, f: Filter)
    requires IsQuote(q) && f.Compare? && Printable(f)
    ensures ParseLeaf(select, Join(LeafWords(q, f))) == Reread(q, f)
  {
    hide ParseLeaf, LeafWords, Printable;
    if f.op == CompareOp.Like {
      LikeRoundTrip(select, q, f);
    } else if IsAscii(f.column) {
      AsciiNameRoundTrip(select, q, f);
    } else {
      WideNameFails(select, q, f);
    }
  }

  lemma LeafRoundTrip(select: SelectParser, q: char, f: Filter)
    requires IsQuote(q) && IsLeaf(f) && Printable(f)
    ensures ParseLeaf(select, Join(LeafWords(q, f))) == Reread(q, f)
  {
    hide ParseLeaf, LeafWords, Printable;
    match f {
      case Compare(_, _, _) => CompareRoundTrip(select, q, f);
      case IsNull(_) => IsNullRoundTrip(select, q, f);
      case IsNotNull(_) => IsNotNullRoundTrip(select, q, f);
      case InList(_, _, _) => InListRoundTrip(select, q, f);
    }
  }

  // ---- chains ----

  lemma {:induction false} AndChunksOk(q: char, f: Filter)
    requires IsQuote(q) && AndChain(f) && Printable(f)
    ensures Chunks("AND", AndChunks(q, f)) && Chunks("OR", AndChunks(q, f))
  {
    hide LeafWords, Chunk;
    if f.And? {
      AndChunksOk(q, f.left);
      LeafIsChunk(q, f.right, "AND");
      LeafIsChunk(q, f.right, "OR");
    } else {
      LeafIsChunk(q, f, "AND");
      LeafIsChunk(q, f, "OR");
    }
  }

  lemma {:induction false} JoinedAppend(chunks: seq<seq<string>>, more: seq<string>)
    ensures Joined(chunks + [more]) == Joined(chunks) + [Join(more)]
  {
    hide Join;
    if chunks == [] {
      assert [more][1..] == [];
      assert chunks + [more] == [more];
    } else {
      assert (chunks + [more])[1..] == chunks[1..] + [more];
      JoinedAppend(chunks[1..], more);
    }
  }

  /** The leaves of a chain, parsed in order, make the chain again. */
  lemma {:induction false} AndOfChunks(select: SelectParser, q: char, f: Filter)
    requires IsQuote(q) && AndChain(f) && Printable(f)
    ensures AndOf(Comparison(select), Joined(AndChunks(q, f))) == Reread(q, f)
  {
    hide ParseLeaf, LeafWords, Join;
    if f.And? {
      AndOfChunks(select, q, f.left);
      LeafRoundTrip(select, q, f.right);
      JoinedAppend(AndChunks(q, f.left), LeafWords(q, f.right));
      var parts := Joined(AndChunks(q, f));
      assert parts[..|parts| - 1] == Joined(AndChunks(q, f.left));
    } else {
      LeafRoundTrip(select, q, f);
      assert Joined([LeafWords(q, f)]) == [Join(LeafWords(q, f))];
    }
  }

  lemma AndRoundTrip(select: SelectParser, q: char, f: Filter)
    requires IsQuote(q) && AndChain(f) && Printable(f)
    ensures ParseAnd(Comparison(select), Join(AndWords(q, f))) == Reread(q, f)
  {
    hide Segments, Join, Reread, Comparison, Chunks, AndChunks;
    var chunks := AndChunks(q, f);
    AndChunksOk(q, f);
    assert LetterWord("AND");
    SplitChunks("AND", chunks, [], None);
    AndOfChunks(select, q, f);
    if |chunks| == 1 {
      OneChunk("AND", chunks);
    }
  }

  lemma OneChunk(separator: string, chunks: seq<seq<string>>)
    requires |chunks| == 1
    ensures Joined(chunks) == [Join(Chunked(separator, chunks))]
  {
    assert chunks[1..] == [];
  }

  lemma {:induction false} ChunkedIsChunk(separator: string, chunks: seq<seq<string>>, other: string)
    requires Chunks(other, chunks) && Word(separator) && !SameIgnoringCase(separator, other)
    ensures Chunk(other, Chunked(separator, chunks))
    decreases |chunks|
  {
    hide Word, SameIgnoringCase;
    FirstIsChunk(other, chunks);
    if |chunks| > 1 {
      ChunksAfter(other, chunks);
      ChunkedIsChunk(separator, chunks[1..], other);
    }
  }

  lemma AndWordsOk(q: char, f: Filter)
    requires IsQuote(q) && AndChain(f) && Printable(f)
    ensures Chunk("OR", AndWords(q, f))
  {
    hide Chunk, AndChunks;
    AndChunksOk(q, f);
    DifferentFirst("AND", "OR");
    assert Plain("AND");
    ChunkedIsChunk("AND", AndChunks(q, f), "OR");
  }

  lemma {:induction false} OrChunksOk(q: char, f: Filter)
    requires IsQuote(q) && OrChain(f) && Printable(f)
    ensures Chunks("OR", OrChunks(q, f))
  {
    hide AndWords, Chunk;
    if f.Or? {
      OrChunksOk(q, f.left);
      AndWordsOk(q, f.right);
    } else {
      AndWordsOk(q, f);
    }
  }

  lemma {:induction false} OrOfChunks(select: SelectParser, q: char, f: Filter)
    requires IsQuote(q) && OrChain(f) && Printable(f)
    ensures OrOf(Comparison(select), Joined(OrChunks(q, f))) == Reread(q, f)
  {
    hide ParseAnd, AndWords, Join;
    if f.Or? {
      OrOfChunks(select, q, f.left);
      AndRoundTrip(select, q, f.right);
      JoinedAppend(OrChunks(q, f.left), AndWords(q, f.right));
      var parts := Joined(OrChunks(q, f));
      assert parts[..|parts| - 1] == Joined(OrChunks(q, f.left));
    } else {
      AndRoundTrip(select, q, f);
      assert Joined([AndWords(q, f)]) == [Join(AndWords(q, f))];
    }
  }

  lemma PrintIsTight(q: char, f: Filter)
    requires IsQuote(q) && OrChain(f) && Printable(f)
    ensures Trim(Print(q, f)) == Print(q, f)
  {
    hide OrChunks, Chunks, Trim, Join, AllWords;
    OrChunksOk(q, f);
    assert Plain("OR");
    ChunkedWords("OR", OrChunks(q, f));
    TrimmedWords(Chunked("OR", OrChunks(q, f)));
  }

  /**
   Printing and reparsing gives the same tree, whatever its literals hold, exactly when it is sliceable;
   otherwise the first slip decides between a panic and a rejection.
   */
  lemma FilterRoundTrip(select: SelectParser, q: char, f: Filter)
    requires IsQuote(q) && OrChain(f) && Printable(f)
    ensures ParseFilter(select, Print(q, f)) == Reread(q, f)
    ensures ParseFilter(select, Print(q, f)) == Ok(f) <==> Sliceable(q, f)
  {
    hide Segments, Join, Comparison, Chunks, OrChunks, ParseAnd, Trim, Sliceable;
    var chunks := OrChunks(q, f);
    OrChunksOk(q, f);
    assert LetterWord("OR");
    PrintIsTight(q, f);
    SplitChunks("OR", chunks, [], None);
    OrOfChunks(select, q, f);
    if |chunks| == 1 {
      OneChunk("OR", chunks);
    }
  }

  const ACCENT := 0xE9 as char

  /** x IN ('ééé') panics: its sixth byte lies inside the third é. */
  lemma SlicedCharacter(select: SelectParser)
    ensures var f := InList("x", [Text([ACCENT, ACCENT, ACCENT])], false);
      && OrChain(f) && Printable(f)
      && ParseFilter(select, Print('\'', f)) == Err(Panicked)
  {
    var s := [ACCENT, ACCENT, ACCENT];
    var f := InList("x", [Text(s)], false);
    var text := PrintList('\'', f.values);
    assert text == ['\''] + s + ['\''] by {
      assert Doubled('\'', s[3..]) == [] && Doubled('\'', s[2..]) == s[2..];
      assert Doubled('\'', s[1..]) == s[1..] && Doubled('\'', s) == s;
    }
    ThreeAccents(text);
    FilterRoundTrip(select, '\'', f);
  }

  lemma ThreeAccents(text: string)
    requires |text| == 5 && text[0] as int < 0x80 && text[4] as int < 0x80
    requires text[1] == ACCENT && text[2] == ACCENT && text[3] == ACCENT
    ensures !SixBytesWhole(text)
  {
    assert CharsWithin(text[3..], 1) == None;
    assert CharsWithin(text[2..], 3) == None;
    assert CharsWithin(text[1..], 5) == None;
    assert ByteLength(text[4..]) == 1;
    assert ByteLength(text[3..]) == 3;
    assert ByteLength(text[2..]) == 5;
    assert ByteLength(text[1..]) == 7;
  }

  /** "é" = 1 is rejected, and "ééé" = 1 panics: the operator's character index falls behind, or inside, a character. */
  lemma WideNames(select: SelectParser)
    ensures var f := Compare([ACCENT], Eq, Int(1));
      OrChain(f) && Printable(f) && ParseFilter(select, Print('\'', f)) == Err(ParseError)
    ensures var f := Compare([ACCENT, ACCENT, ACCENT], Eq, Int(1));
      OrChain(f) && Printable(f) && ParseFilter(select, Print('\'', f)) == Err(Panicked)
  {
    hide ParseFilter, Print;
    WideName([ACCENT]);
    WideName([ACCENT, ACCENT, ACCENT]);
    var one, three := PrintName([ACCENT]), PrintName([ACCENT, ACCENT, ACCENT]);
    assert CharsWithin(one[3..], 0) == Some(0) && CharsWithin(one[2..], 1) == Some(1) && CharsWithin(one[1..], 3) == Some(2);
    assert CharsWithin(one, 4) == Some(3);
    ThreeAccents(three);
    FilterRoundTrip(select, '\'', Compare([ACCENT], Eq, Int(1)));
    FilterRoundTrip(select, '\'', Compare([ACCENT, ACCENT, ACCENT], Eq, Int(1)));
  }

  lemma WideName(name: string)
    requires name != [] && name[0] == ACCENT
    ensures PrintName(name) == "\"" + name + "\"" && !IsAscii(name)
  {
    assert !IsBareChar(name[0]);
  }
}
