/**
 The one assumption about encryption can be met: a line format that is read back, cannot be cut short, and holds
 no white space. A row is written as its id, its columns and the keys of its values, all in unary.
 */
module SoundCodec {
  import opened Types
  import opened ValueKeys
  import opened TableFile

  const ONE: Byte := 65
  const STOP: Byte := 66
  const CLOSE: Byte := 67
  const LAST: Byte := 90

  function Unary(n: nat): Bytes {
    if n == 0 then [STOP] else [ONE] + Unary(n - 1)
  }

  function EncodeString(s: string): Bytes {
    if s == [] then [CLOSE] else Unary(s[0] as int) + EncodeString(s[1..])
  }

  type Pair = (string, Value)

  function EncodePairs(pairs: seq<Pair>): Bytes {
    if pairs == [] then [LAST]
    else EncodeString(pairs[0].0) + (EncodeString(ValueKey(pairs[0].1)) + EncodePairs(pairs[1..]))
  }

  /** The keys of a row in some fixed order. */
  ghost function InOrder(keys: set<string>): (order: seq<string>)
    ensures forall k :: k in order <==> k in keys
    decreases |keys|
  {
    if keys == {} then [] else
    var k :| k in keys;
    [k] + InOrder(keys - {k})
  }

  ghost function PairsOf(row: Row, order: seq<string>): (pairs: seq<Pair>)
    requires forall k :: k in order ==> k in row
    ensures |pairs| == |order| && forall i :: 0 <= i < |order| ==> pairs[i] == (order[i], row[order[i]])
  {
    seq(|order|, i requires 0 <= i < |order| => assert order[i] in order; (order[i], row[order[i]]))
  }

  ghost function Encode(row: StoredRow): Bytes {
    Unary(row.id) + EncodePairs(PairsOf(row.data, InOrder(row.data.Keys)))
  }

  // ---- reading back ----

  lemma {:induction false} UnaryReadsBack(n: nat, m: nat, r: Bytes, t: Bytes)
    requires Unary(n) + r == Unary(m) + t
    ensures n == m && r == t
  {
    var left, right := Unary(n) + r, Unary(m) + t;
    assert left[0] == Unary(n)[0] && right[0] == Unary(m)[0];
    if n == 0 || m == 0 {
      assert n == m;
      assert r == left[1..] && t == right[1..];
    } else {
      assert left[1..] == Unary(n - 1) + r && right[1..] == Unary(m - 1) + t;
      UnaryReadsBack(n - 1, m - 1, r, t);
    }
  }

  lemma UnaryStarts(n: nat)
    ensures Unary(n) != [] && Unary(n)[0] in {ONE, STOP}
  {
  }

  lemma {:induction false} StringReadsBack(s: string, u: string, r: Bytes, t: Bytes)
    requires EncodeString(s) + r == EncodeString(u) + t
    ensures s == u && r == t
    decreases |s|
  {
    var left, right := EncodeString(s) + r, EncodeString(u) + t;
    StringStarts(s);
    StringStarts(u);
    assert left[0] == EncodeString(s)[0] && right[0] == EncodeString(u)[0];
    if s == [] || u == [] {
      assert s == u;
      assert r == left[1..] && t == right[1..];
    } else {
      assert left == Unary(s[0] as int) + (EncodeString(s[1..]) + r);
      assert right == Unary(u[0] as int) + (EncodeString(u[1..]) + t);
      UnaryReadsBack(s[0] as int, u[0] as int, EncodeString(s[1..]) + r, EncodeString(u[1..]) + t);
      StringReadsBack(s[1..], u[1..], r, t);
      assert s == [s[0]] + s[1..] && u == [u[0]] + u[1..];
    }
  }

  lemma StringStarts(s: string)
    ensures EncodeString(s) != []
    ensures if s == [] then EncodeString(s)[0] == CLOSE else EncodeString(s)[0] in {ONE, STOP}
  {
    if s != [] {
      UnaryStarts(s[0] as int);
    }
  }

  lemma {:induction false} PairsReadBack(pairs: seq<Pair>, others: seq<Pair>)
    requires EncodePairs(pairs) == EncodePairs(others)
    ensures pairs == others
    decreases |pairs|
  {
    PairsStart(pairs);
    PairsStart(others);
    if pairs != [] && others != [] {
      var (k, v) := pairs[0];
      var (l, w) := others[0];
      StringReadsBack(k, l, EncodeString(ValueKey(v)) + EncodePairs(pairs[1..]), EncodeString(ValueKey(w)) + EncodePairs(others[1..]));
      StringReadsBack(ValueKey(v), ValueKey(w), EncodePairs(pairs[1..]), EncodePairs(others[1..]));
      ValueKeyInjective(v, w);
      PairsReadBack(pairs[1..], others[1..]);
      assert pairs == [pairs[0]] + pairs[1..] && others == [others[0]] + others[1..];
    }
  }

  lemma PairsStart(pairs: seq<Pair>)
    ensures EncodePairs(pairs) != [] && (EncodePairs(pairs)[0] == LAST <==> pairs == [])
  {
    if pairs != [] {
      StringStarts(pairs[0].0);
    }
  }

  lemma EncodeReadsBack(row: StoredRow, other: StoredRow)
    requires Encode(row) == Encode(other)
    ensures row == other
  {
    var order, others := InOrder(row.data.Keys), InOrder(other.data.Keys);
    var pairs, them := PairsOf(row.data, order), PairsOf(other.data, others);
    UnaryReadsBack(row.id, other.id, EncodePairs(pairs), EncodePairs(them));
    PairsReadBack(pairs, them);
    forall i | 0 <= i < |order| ensures order[i] == others[i] && row.data[order[i]] == other.data[order[i]] {
      assert pairs[i] == them[i];
    }
    assert order == others;
    assert row.data == other.data by {
      forall k | k in row.data ensures k in other.data && row.data[k] == other.data[k] {
        assert k in order;
        var i :| 0 <= i < |order| && order[i] == k;
      }
      assert row.data.Keys == other.data.Keys by {
        assert forall k :: k in row.data.Keys <==> k in order;
        assert forall k :: k in other.data.Keys <==> k in others;
      }
    }
  }

  // ---- the shape of a line ----

  /** Visible bytes, closed by the only LAST. */
  ghost predicate ClosedLine(line: Bytes) {
    && line != [] && line[|line| - 1] == LAST
    && forall i :: 0 <= i < |line| - 1 ==> line[i] in {ONE, STOP, CLOSE}
  }

  ghost predicate Inner(s: Bytes) {
    forall i :: 0 <= i < |s| ==> s[i] in {ONE, STOP, CLOSE}
  }

  lemma {:induction false} UnaryInner(n: nat)
    ensures Inner(Unary(n))
  {
    if n > 0 {
      UnaryInner(n - 1);
    }
  }

  lemma {:induction false} StringInner(s: string)
    ensures Inner(EncodeString(s))
  {
    if s != [] {
      UnaryInner(s[0] as int);
      StringInner(s[1..]);
    }
  }

  lemma {:induction false} PairsClosed(pairs: seq<Pair>)
    ensures ClosedLine(EncodePairs(pairs))
  {
    if pairs != [] {
      StringInner(pairs[0].0);
      StringInner(ValueKey(pairs[0].1));
      PairsClosed(pairs[1..]);
    }
  }

  lemma EncodeClosed(row: StoredRow)
    ensures ClosedLine(Encode(row))
  {
    UnaryInner(row.id);
    PairsClosed(PairsOf(row.data, InOrder(row.data.Keys)));
  }

  // ---- the codec ----

  ghost function Decode(line: Bytes): Option<StoredRow> {
    if exists row :: Encode(row) == line then
      var row :| Encode(row) == line;
      Some(row)
    else None
  }

  ghost function Codec(): Crypto {
    Crypto((row: StoredRow, nonce: nat) => Encode(row), (line: Bytes) => Decode(line))
  }

  lemma DecodeEncode(row: StoredRow)
    ensures Decode(Encode(row)) == Some(row)
  {
    DecodedEncodes(Encode(row), row);
    EncodeReadsBack(Decode(Encode(row)).value, row);
  }

  lemma DecodedEncodes(line: Bytes, row: StoredRow)
    requires Encode(row) == line
    ensures Decode(line).Some? && Encode(Decode(line).value) == line
  {
  }

  lemma CutIsOpen(line: Bytes, k: nat)
    requires ClosedLine(line) && k < |line|
    ensures !ClosedLine(line[..k])
  {
  }

  lemma CutDecodesToNothing(row: StoredRow, k: nat)
    requires k < |Encode(row)|
    ensures Decode(Encode(row)[..k]) == None
  {
    var line := Encode(row);
    EncodeClosed(row);
    CutIsOpen(line, k);
    forall other ensures Encode(other) != line[..k] {
      EncodeClosed(other);
    }
  }

  /** There is a codec with the property every other module assumes of encryption. */
  lemma SoundCodecExists()
    ensures Sound(Codec())
  {
    var c := Codec();
    forall row: StoredRow, nonce: nat ensures Encrypts(c, row, nonce) {
      var line := Encode(row);
      EncodeClosed(row);
      DecodeEncode(row);
      assert c.enc(row, nonce) == line && c.dec(line) == Some(row);
      forall k | 0 <= k < |line| ensures c.dec(line[..k]).None? {
        CutDecodesToNothing(row, k);
      }
      forall i | 0 <= i < |line| ensures !IsSpace(line[i]) {
        assert line[i] in {ONE, STOP, CLOSE, LAST};
      }
    }
  }
}
