/**
 A table file as bytes: one encrypted line per row. Scanning it, seeking into it by locator,
 and why both agree on every file the engine writes.
 */
module TableFile {
  import opened Types

  newtype Byte = b: int | 0 <= b < 256

  type Bytes = seq<Byte>

  const NEWLINE: Byte := 10
  const CARRIAGE_RETURN: Byte := 13
  const U32_SPAN: nat := 0x1_0000_0000

  /** `as u32`: the length modulo 2^32. */
  function Truncate32(n: nat): (t: nat)
    ensures t < U32_SPAN
    ensures if n < U32_SPAN then t == n else t < n
  {
    if n < U32_SPAN then n else Truncate32(n - U32_SPAN)
  }

  predicate IsSpace(b: Byte) {
    9 <= b <= 13 || b == 32
  }

  predicate Blank(line: Bytes) {
    forall i :: 0 <= i < |line| ==> IsSpace(line[i])
  }

  /** Encryption (with the nonce it draws) and decryption of one stored row. */
  datatype Crypto = Crypto(enc: (StoredRow, nat) -> Bytes, dec: Bytes -> Option<StoredRow>)

  /** What a reader needs of one line: it decrypts, and no proper prefix of it does. */
  ghost predicate GoodLine(c: Crypto, line: Bytes) {
    && line != []
    && (forall i :: 0 <= i < |line| ==> !IsSpace(line[i]))
    && c.dec(line).Some?
    && forall k :: 0 <= k < |line| ==> c.dec(line[..k]).None?
  }

  /** Authenticated encryption written as base64: decryption undoes encryption, and rejects cut lines. */
  ghost predicate Sound(c: Crypto) {
    forall row: StoredRow, nonce: nat :: Encrypts(c, row, nonce)
  }

  ghost predicate Encrypts(c: Crypto, row: StoredRow, nonce: nat) {
    var line := c.enc(row, nonce);
    GoodLine(c, line) && c.dec(line) == Some(row)
  }

  datatype Located = Located(loc: Locator, row: StoredRow)

  /** A decrypted line of `length` bytes found at `offset`. */
  function Found(row: StoredRow, offset: nat, length: nat): Located {
    Located(Locator(row.id, offset, Truncate32(length)), row)
  }

  // ---- the scan ----

  /** The length of the first line of `rest`, its newline included. */
  function LineLength(rest: Bytes): (n: nat)
    requires rest != []
    ensures 1 <= n <= |rest|
  {
    if rest[0] == NEWLINE || |rest| == 1 then 1 else 1 + LineLength(rest[1..])
  }

  function TrimEnd(line: Bytes): (t: Bytes)
    ensures |t| <= |line|
  {
    if line != [] && (line[|line| - 1] == NEWLINE || line[|line| - 1] == CARRIAGE_RETURN)
    then TrimEnd(line[..|line| - 1]) else line
  }

  function Prepend<T>(head: seq<T>, tail: Result<seq<T>>): Result<seq<T>> {
    match tail
    case Ok(rows) => Ok(head + rows)
    case Err(e) => Err(e)
  }

  /** Every row of `rest`, which starts at byte `offset` of its file, with where it was found. */
  function Scan(c: Crypto, rest: Bytes, offset: nat): Result<seq<Located>>
    decreases |rest|
  {
    if rest == [] then Ok([]) else
    var n := LineLength(rest);
    var line := TrimEnd(rest[..n]);
    if Blank(line) then Scan(c, rest[n..], offset + n) else
    match c.dec(line)
    case None => Err(CorruptRow)
    case Some(row) =>
      Prepend([Found(row, offset, |line|)], Scan(c, rest[n..], offset + n))
  }

  /** `read_stored_rows_located`: the reader's loop, one line at a time. */
  method ReadLocated(c: Crypto, file: Bytes) returns (r: Result<seq<Located>>)
    ensures r == Scan(c, file, 0)
  {
    var rows: seq<Located> := [];
    var rest, offset := file, 0;
    PrependNothing(Scan(c, file, 0));
    while rest != []
      invariant Scan(c, file, 0) == Prepend(rows, Scan(c, rest, offset))
      decreases |rest|
    {
      var consumed := LineLength(rest);
      var line := TrimEnd(rest[..consumed]);
      if !Blank(line) {
        var decrypted := c.dec(line);
        if decrypted.None? {
          return Err(CorruptRow);
        }
        var found := Found(decrypted.value, offset, |line|);
        PrependTwice(rows, [found], Scan(c, rest[consumed..], offset + consumed));
        rows := rows + [found];
      }
      rest, offset := rest[consumed..], offset + consumed;
    }
    assert rows + [] == rows;
    r := Ok(rows);
  }

  lemma PrependNothing<T>(r: Result<seq<T>>)
    ensures Prepend([], r) == r
  {
    if r.Ok? {
      assert [] + r.value == r.value;
    }
  }

  lemma PrependTwice<T>(a: seq<T>, b: seq<T>, r: Result<seq<T>>)
    ensures Prepend(a, Prepend(b, r)) == Prepend(a + b, r)
  {
    if r.Ok? {
      assert a + (b + r.value) == a + b + r.value;
    }
  }

  // ---- files the engine writes ----

  function FileOf(lines: seq<Bytes>): Bytes {
    if lines == [] then [] else lines[0] + [NEWLINE] + FileOf(lines[1..])
  }

  ghost predicate Good(c: Crypto, lines: seq<Bytes>) {
    forall i :: 0 <= i < |lines| ==> GoodLine(c, lines[i])
  }

  /** A file made of whole encrypted lines. */
  ghost predicate Tidy(c: Crypto, file: Bytes) {
    exists lines :: Good(c, lines) && file == FileOf(lines)
  }

  /** Where each line of FileOf(lines) lies: offsets are prefix sums of line lengths plus newlines. */
  ghost function Locate(c: Crypto, lines: seq<Bytes>, offset: nat): (rows: seq<Located>)
    requires Good(c, lines)
    ensures |rows| == |lines|
  {
    if lines == [] then [] else
    [Found(c.dec(lines[0]).value, offset, |lines[0]|)] + Locate(c, lines[1..], offset + |lines[0]| + 1)
  }

  lemma {:induction false} LineLengthOf(line: Bytes, rest: Bytes)
    requires forall i :: 0 <= i < |line| ==> !IsSpace(line[i])
    ensures LineLength(line + [NEWLINE] + rest) == |line| + 1
  {
    var all := line + [NEWLINE] + rest;
    if line != [] {
      assert all[0] == line[0];
      assert all[1..] == line[1..] + [NEWLINE] + rest;
      LineLengthOf(line[1..], rest);
    }
  }

  lemma TrimEndOf(line: Bytes)
    requires line != [] && !IsSpace(line[|line| - 1])
    ensures TrimEnd(line + [NEWLINE]) == line
  {
    assert (line + [NEWLINE])[..|line|] == line;
  }

  lemma ScanLine(c: Crypto, line: Bytes, tail: Bytes, offset: nat)
    requires line != [] && (forall i :: 0 <= i < |line| ==> !IsSpace(line[i])) && c.dec(line).Some?
    ensures Scan(c, line + [NEWLINE] + tail, offset)
      == Prepend([Found(c.dec(line).value, offset, |line|)], Scan(c, tail, offset + |line| + 1))
  {
    var file := line + [NEWLINE] + tail;
    LineLengthOf(line, tail);
    TrimEndOf(line);
    assert file[..|line| + 1] == line + [NEWLINE] && file[|line| + 1..] == tail;
    assert !IsSpace(line[0]);
  }

  /** The byte-level round trip: scanning written lines returns them, in order, at their prefix-sum offsets. */
  lemma {:induction false} ScanOfWritten(c: Crypto, lines: seq<Bytes>, offset: nat)
    requires Good(c, lines)
    ensures Scan(c, FileOf(lines), offset) == Ok(Locate(c, lines, offset))
  {
    if lines != [] {
      assert GoodLine(c, lines[0]);
      ScanLine(c, lines[0], FileOf(lines[1..]), offset);
      ScanOfWritten(c, lines[1..], offset + |lines[0]| + 1);
    }
  }

  lemma {:induction false} FileOfAppend(lines: seq<Bytes>, line: Bytes)
    ensures FileOf(lines + [line]) == FileOf(lines) + line + [NEWLINE]
  {
    if lines == [] {
      assert FileOf([line]) == line + [NEWLINE] + [];
    } else {
      FileOfAppend(lines[1..], line);
      assert (lines + [line])[1..] == lines[1..] + [line];
      assert (lines + [line])[0] == lines[0];
    }
  }

  lemma {:induction false} LocateAppend(c: Crypto, lines: seq<Bytes>, line: Bytes, offset: nat)
    requires Good(c, lines) && GoodLine(c, line)
    ensures Good(c, lines + [line])
    ensures Locate(c, lines + [line], offset) == Locate(c, lines, offset)
      + [Found(c.dec(line).value, offset + |FileOf(lines)|, |line|)]
  {
    var longer := lines + [line];
    if lines == [] {
      assert longer[1..] == [];
    } else {
      assert longer[1..] == lines[1..] + [line] && longer[0] == lines[0];
      LocateAppend(c, lines[1..], line, offset + |lines[0]| + 1);
    }
  }

  // ---- tidy files ----

  /** The rows of a file with their locators; a file that does not scan has none. */
  function RowsOf(c: Crypto, file: Bytes): seq<Located> {
    match Scan(c, file, 0)
    case Ok(rows) => rows
    case Err(_) => []
  }

  lemma TidyScans(c: Crypto, file: Bytes)
    requires Tidy(c, file)
    ensures Scan(c, file, 0).Ok?
  {
    var lines :| Good(c, lines) && file == FileOf(lines);
    ScanOfWritten(c, lines, 0);
  }

  lemma TidyWritten(c: Crypto, lines: seq<Bytes>, file: Bytes)
    requires Good(c, lines) && file == FileOf(lines)
    ensures Tidy(c, file) && RowsOf(c, file) == Locate(c, lines, 0)
  {
    ScanOfWritten(c, lines, 0);
  }

  lemma TidyEmpty(c: Crypto)
    ensures Tidy(c, []) && RowsOf(c, []) == []
  {
    TidyWritten(c, [], []);
  }

  /** Appending one line adds one row whose locator starts at the old end of the file. */
  lemma TidyAppend(c: Crypto, file: Bytes, line: Bytes)
    requires Tidy(c, file) && GoodLine(c, line)
    ensures Tidy(c, file + line + [NEWLINE])
    ensures RowsOf(c, file + line + [NEWLINE]) == RowsOf(c, file)
      + [Found(c.dec(line).value, |file|, |line|)]
  {
    var lines :| Good(c, lines) && file == FileOf(lines);
    var longer := lines + [line];
    TidyWritten(c, lines, file);
    LocateAppend(c, lines, line, 0);
    FileOfAppend(lines, line);
    TidyWritten(c, longer, file + line + [NEWLINE]);
  }

  function Stored(rows: seq<Located>): (stored: seq<StoredRow>)
    ensures |stored| == |rows| && forall i :: 0 <= i < |rows| ==> stored[i] == rows[i].row
  {
    seq(|rows|, i requires 0 <= i < |rows| => rows[i].row)
  }

  /** Writing one more encrypted row at the end of a file. */
  method WriteRow(c: Crypto, file: Bytes, row: StoredRow) returns (longer: Bytes, length: nat)
    requires Sound(c) && Tidy(c, file)
    ensures Tidy(c, longer) && file <= longer
    ensures RowsOf(c, longer) == RowsOf(c, file) + [Found(row, |file|, length)]
    ensures Stored(RowsOf(c, longer)) == Stored(RowsOf(c, file)) + [row]
  {
    var nonce: nat :| true;
    var line := c.enc(row, nonce);
    assert Encrypts(c, row, nonce);
    TidyAppend(c, file, line);
    longer, length := file + line + [NEWLINE], |line|;
  }

  /** The file that holds the given rows, one encrypted line each. */
  method WriteRows(c: Crypto, rows: seq<StoredRow>) returns (file: Bytes)
    requires Sound(c)
    ensures Tidy(c, file) && Stored(RowsOf(c, file)) == rows
  {
    file := [];
    TidyEmpty(c);
    for i := 0 to |rows|
      invariant Tidy(c, file) && Stored(RowsOf(c, file)) == rows[..i]
    {
      var length;
      file, length := WriteRow(c, file, rows[i]);
    }
  }

  // ---- seeking ----

  /** What seeking to a locator yields: the row, unless the bytes there do not decrypt to that id. */
  function RowAt(c: Crypto, file: Bytes, loc: Locator): Option<Row> {
    if loc.offset + loc.len > |file| then None else
    match c.dec(file[loc.offset..loc.offset + loc.len])
    case None => None
    case Some(row) => if row.id == loc.id then Some(row.data) else None
  }

  /** `read_rows_at`: one seek and one exact read per locator; the first bad one fails the whole read. */
  method ReadRowsAt(c: Crypto, file: Bytes, locators: seq<Locator>) returns (r: Result<seq<Row>>)
    ensures r.Ok? <==> forall i :: 0 <= i < |locators| ==> RowAt(c, file, locators[i]).Some?
    ensures r.Ok? ==> |r.value| == |locators|
    ensures r.Ok? ==> forall i :: 0 <= i < |locators| ==> RowAt(c, file, locators[i]) == Some(r.value[i])
  {
    var rows: seq<Row> := [];
    for k := 0 to |locators|
      invariant |rows| == k
      invariant forall i :: 0 <= i < k ==> RowAt(c, file, locators[i]) == Some(rows[i])
    {
      var locator := locators[k];
      if locator.offset + locator.len > |file| {
        return Err(CorruptRow);
      }
      var decrypted := c.dec(file[locator.offset..locator.offset + locator.len]);
      if decrypted.None? || decrypted.value.id != locator.id {
        return Err(CorruptRow);
      }
      rows := rows + [decrypted.value.data];
    }
    r := Ok(rows);
  }

  ghost predicate LineIsAt(c: Crypto, file: Bytes, start: nat, line: Bytes, found: Located) {
    && start <= found.loc.offset
    && found.loc.offset - start + |line| <= |file|
    && file[found.loc.offset - start..found.loc.offset - start + |line|] == line
    && found.loc.len == Truncate32(|line|)
    && c.dec(line) == Some(found.row)
    && found.loc.id == found.row.id
  }

  lemma LineIsAtAfter(c: Crypto, head: Bytes, file: Bytes, start: nat, line: Bytes, found: Located)
    requires LineIsAt(c, file, start + |head|, line, found)
    ensures LineIsAt(c, head + file, start, line, found)
  {
    var from := found.loc.offset - start - |head|;
    assert (head + file)[|head| + from..|head| + from + |line|] == file[from..from + |line|];
  }

  lemma {:induction false} LineBytes(c: Crypto, lines: seq<Bytes>, offset: nat, i: nat)
    requires Good(c, lines) && i < |lines|
    ensures LineIsAt(c, FileOf(lines), offset, lines[i], Locate(c, lines, offset)[i])
  {
    assert GoodLine(c, lines[i]);
    if i > 0 {
      LineBytes(c, lines[1..], offset + |lines[0]| + 1, i - 1);
      LineIsAtAfter(c, lines[0] + [NEWLINE], FileOf(lines[1..]), offset, lines[i], Locate(c, lines, offset)[i]);
    } else {
      assert FileOf(lines)[..|lines[0]|] == lines[0];
    }
  }

  /**
   Seeking to the locator the scan produced for a line decrypts that same row exactly when the line is shorter than
   2^32 bytes, however long the file: a longer line's length is stored modulo 2^32, and the cut line is rejected.
   */
  lemma LocatorReadsItsRow(c: Crypto, lines: seq<Bytes>, i: nat)
    requires Good(c, lines) && i < |lines|
    ensures |RowsOf(c, FileOf(lines))| == |lines|
    ensures var found := RowsOf(c, FileOf(lines))[i];
      && found.loc.id == found.row.id && Some(found.row) == c.dec(lines[i])
      && RowAt(c, FileOf(lines), found.loc) == if |lines[i]| < U32_SPAN then Some(found.row.data) else None
  {
    TidyWritten(c, lines, FileOf(lines));
    LineBytes(c, lines, 0, i);
    assert GoodLine(c, lines[i]);
    LineReadsBack(c, FileOf(lines), lines[i], RowsOf(c, FileOf(lines))[i]);
  }

  /** A locator of any file the engine writes reads its row or fails; it never reads another. */
  lemma LocatorNeverMisreads(c: Crypto, file: Bytes, i: nat)
    requires Tidy(c, file) && i < |RowsOf(c, file)|
    ensures var found := RowsOf(c, file)[i];
      && found.loc.id == found.row.id
      && (RowAt(c, file, found.loc) == Some(found.row.data) || RowAt(c, file, found.loc).None?)
  {
    var lines :| Good(c, lines) && file == FileOf(lines);
    TidyWritten(c, lines, file);
    LocatorReadsItsRow(c, lines, i);
  }

  lemma LineReadsBack(c: Crypto, file: Bytes, line: Bytes, found: Located)
    requires GoodLine(c, line) && LineIsAt(c, file, 0, line, found)
    ensures |line| < U32_SPAN ==> RowAt(c, file, found.loc) == Some(found.row.data)
    ensures |line| >= U32_SPAN ==> RowAt(c, file, found.loc).None?
  {
    if |line| < U32_SPAN {
      assert found.loc.len == |line|;
    } else {
      LongLineIsCut(c, file, line, found);
    }
  }

  /** The stored length of a line of 2^32 bytes or more cuts it, and the cut line is rejected. */
  lemma LongLineIsCut(c: Crypto, file: Bytes, line: Bytes, found: Located)
    requires GoodLine(c, line) && LineIsAt(c, file, 0, line, found)
    requires |line| >= U32_SPAN
    ensures RowAt(c, file, found.loc).None?
  {
    var from, n := found.loc.offset, Truncate32(|line|);
    assert n < |line|;
    assert file[from..from + n] == file[from..from + |line|][..n];
    assert c.dec(line[..n]).None?;
  }
}
