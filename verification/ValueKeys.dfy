/**
 The key under which an index map, a unique cache, a join bucket or a group files a value:
 the value's JSON text. Everything keyed that way is right only because distinct values
 have distinct texts, which is proved here.
 */
module ValueKeys {
  import opened Types
  import opened Decimal

  function HexDigit(d: nat): (c: char)
    requires d < 16
    ensures c != '"' && c != '\\'
  {
    if d < 10 then DigitChar(d) else (d - 10 + 'a' as int) as char
  }

  /** JSON string escaping of one character. */
  function EscapeChar(c: char): string {
    if c == '"' then "\\\""
    else if c == '\\' then "\\\\"
    else if c == 8 as char then "\\b"
    else if c == 12 as char then "\\f"
    else if c == '\n' then "\\n"
    else if c == '\r' then "\\r"
    else if c == '\t' then "\\t"
    else if c < 32 as char then "\\u00" + [HexDigit(c as int / 16), HexDigit(c as int % 16)]
    else [c]
  }

  function Escape(s: string): string {
    if s == [] then [] else EscapeChar(s[0]) + Escape(s[1..])
  }

  /** `serde_json::to_string(value)`: the tagged form {"kind":..,"value":..}. */
  function ValueKey(v: Value): string {
    match v
    case Int(i) => "{\"kind\":\"Int\",\"value\":" + (IntToString(i) + "}")
    case Text(s) => "{\"kind\":\"Text\",\"value\":\"" + (Escape(s) + "\"}")
    case Bool(b) => "{\"kind\":\"Bool\",\"value\":" + (if b then "true" else "false") + "}"
    case Null => "{\"kind\":\"Null\"}"
  }

  /** The escapes form a prefix code. */
  lemma EscapeCharPrefixFree(c: char, d: char, r: string, t: string)
    requires EscapeChar(c) + r == EscapeChar(d) + t
    ensures c == d
  {
    var x, y := EscapeChar(c), EscapeChar(d);
    assert x[0] == (x + r)[0] == (y + t)[0] == y[0];
    if x[0] == '\\' {
      assert x[1] == (x + r)[1] == (y + t)[1] == y[1];
      if |x| == 6 && |y| == 6 {
        assert x[4] == (x + r)[4] == (y + t)[4] == y[4];
        assert x[5] == (x + r)[5] == (y + t)[5] == y[5];
        assert c as int / 16 == d as int / 16 && c as int % 16 == d as int % 16;
      }
    }
  }

  lemma {:induction false} EscapeInjective(s: string, t: string)
    requires Escape(s) == Escape(t)
    ensures s == t
  {
    if s != [] && t != [] {
      EscapeCharPrefixFree(s[0], t[0], Escape(s[1..]), Escape(t[1..]));
      assert Escape(s[1..]) + "" == Escape(s[1..]) && Escape(t[1..]) + "" == Escape(t[1..]);
      SameMiddle(EscapeChar(s[0]), Escape(s[1..]), Escape(t[1..]), "");
      EscapeInjective(s[1..], t[1..]);
      assert s == [s[0]] + s[1..] && t == [t[0]] + t[1..];
    }
  }

  lemma SameMiddle(prefix: string, x: string, y: string, suffix: string)
    requires prefix + (x + suffix) == prefix + (y + suffix)
    ensures x == y
  {
    assert |x| == |y|;
    assert x == (prefix + (x + suffix))[|prefix|..|prefix| + |x|];
    assert y == (prefix + (y + suffix))[|prefix|..|prefix| + |y|];
  }

  lemma ValueKeyInjective(v: Value, w: Value)
    requires ValueKey(v) == ValueKey(w)
    ensures v == w
  {
    var k, l := ValueKey(v), ValueKey(w);
    assert k[9] == l[9];
    match (v, w) {
      case (Int(i), Int(j)) =>
        SameMiddle("{\"kind\":\"Int\",\"value\":", IntToString(i), IntToString(j), "}");
        IntRoundTrip(i);
        IntRoundTrip(j);
      case (Text(s), Text(t)) =>
        SameMiddle("{\"kind\":\"Text\",\"value\":\"", Escape(s), Escape(t), "\"}");
        EscapeInjective(s, t);
      case (Bool(a), Bool(b)) =>
        assert k[23] == l[23];
      case _ =>
    }
  }
}
