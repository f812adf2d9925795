/**
 Texts made of words: on them the character-level scanners do what one would do on the list of words. A word is
 plain, or closed: a quoted string or a parenthesised list that the scanner enters and leaves again.
 */
module Words {
  import opened Types
  import opened Text
  import opened Scanner

  predicate PlainChar(c: char) {
    !IsWhitespace(c) && !IsQuote(c) && c !in {'(', ')', ',', ';'}
  }

  predicate Plain(w: string) {
    w != [] && forall i :: 0 <= i < |w| ==> PlainChar(w[i])
  }

  /** Outside quotes and parentheses the text holds nothing but quotes and parentheses. */
  predicate Silent(st: Scan, w: string)
    decreases |w|
  {
    w == [] || ((st == START ==> IsQuote(w[0]) || w[0] == '(' || w[0] == ')') && Silent(Step(st, w[0]), w[1..]))
  }

  /** The text starts and ends with a visible character. */
  predicate Tight(w: string) {
    w != [] && !IsWhitespace(w[0]) && !IsWhitespace(w[|w| - 1])
  }

  predicate Closed(w: string) {
    Tight(w) && Silent(START, w) && After(START, w) == START
  }

  predicate Word(w: string) {
    Plain(w) || Closed(w)
  }

  predicate AllWords(words: seq<string>) {
    forall i :: 0 <= i < |words| ==> Word(words[i])
  }

  function Join(words: seq<string>): string {
    if words == [] then []
    else if |words| == 1 then words[0]
    else words[0] + " " + Join(words[1..])
  }

  predicate LetterWord(k: string) {
    k != [] && forall i :: 0 <= i < |k| ==> IsLetter(k[i])
  }

  predicate Keywords(kws: seq<string>) {
    kws != [] && forall i :: 0 <= i < |kws| ==> LetterWord(kws[i])
  }

  lemma {:induction false} KeywordsJoin(kws: seq<string>)
    requires Keywords(kws)
    ensures IsKeyword(Join(kws))
  {
    if |kws| > 1 {
      assert Keywords(kws[1..]) by {
        assert forall i :: 0 <= i < |kws[1..]| ==> kws[1..][i] == kws[i + 1];
      }
      KeywordsJoin(kws[1..]);
      assert LetterWord(kws[0]);
    } else {
      assert LetterWord(kws[0]);
    }
  }

  lemma {:induction false} JoinAppend(words: seq<string>, more: seq<string>)
    requires words != [] && more != []
    ensures Join(words + more) == Join(words) + " " + Join(more)
  {
    if |words| == 1 {
      assert (words + more)[1..] == more;
    } else {
      assert (words + more)[1..] == words[1..] + more;
      JoinAppend(words[1..], more);
    }
  }

  lemma {:induction false} JoinTight(words: seq<string>)
    requires words != [] && AllWords(words)
    ensures Tight(Join(words))
  {
    assert Word(words[0]);
    if |words| > 1 {
      assert AllWords(words[1..]) by {
        assert forall i :: 0 <= i < |words[1..]| ==> words[1..][i] == words[i + 1];
      }
      JoinTight(words[1..]);
    }
  }

  // ---- trimming ----

  predicate Spaces(s: string) {
    forall i :: 0 <= i < |s| ==> IsWhitespace(s[i])
  }

  lemma {:induction false} TrimTight(lead: string, s: string, trail: string)
    requires Tight(s) && Spaces(lead) && Spaces(trail)
    ensures Trim(lead + s + trail) == s
    decreases |lead| + |trail|
  {
    var whole := lead + s + trail;
    TrimStartTight(lead, s + trail);
    assert lead + (s + trail) == whole;
    TrimEndTight(s, trail);
  }

  lemma {:induction false} TrimStartTight(lead: string, s: string)
    requires s != [] && !IsWhitespace(s[0]) && Spaces(lead)
    ensures TrimStart(lead + s) == s
  {
    if lead == [] {
      assert lead + s == s;
    } else {
      assert (lead + s)[1..] == lead[1..] + s;
      TrimStartTight(lead[1..], s);
    }
  }

  lemma {:induction false} TrimEndTight(s: string, trail: string)
    requires s != [] && !IsWhitespace(s[|s| - 1]) && Spaces(trail)
    ensures TrimEnd(s + trail) == s
  {
    if trail == [] {
      assert s + trail == s;
    } else {
      var n := |trail| - 1;
      assert (s + trail)[..|s + trail| - 1] == s + trail[..n];
      TrimEndTight(s, trail[..n]);
    }
  }

  // ---- keywords among words ----

  predicate StartsWith(words: seq<string>, kws: seq<string>) {
    kws == [] || (words != [] && SameIgnoringCase(words[0], kws[0]) && StartsWith(words[1..], kws[1..]))
  }

  /** The first position where the words go on with the keywords. */
  function FirstMatch(kws: seq<string>, words: seq<string>): (r: Option<nat>)
    ensures r.Some? ==> r.value < |words|
  {
    if words == [] then None
    else if StartsWith(words, kws) then Some(0)
    else Shift(1, FirstMatch(kws, words[1..]))
  }

  /** Where a word starts in the joined text. */
  function Offset(words: seq<string>, i: nat): nat
    requires i <= |words|
  {
    if i == 0 then 0 else |words[0]| + 1 + Offset(words[1..], i - 1)
  }

  predicate HitHere(key: string, rest: string) {
    |key| <= |rest| && SameIgnoringCase(rest[..|key|], key) && (|rest| == |key| || IsBoundary(rest[|key|]))
  }

  /** What follows the first word: nothing, or a space and the other words. */
  function Rest(words: seq<string>): string
    requires words != []
  {
    if |words| == 1 then [] else " " + Join(words[1..])
  }

  lemma JoinRest(words: seq<string>)
    requires words != []
    ensures Join(words) == words[0] + Rest(words)
  {
  }

  lemma SameAt(s: string, t: string, i: nat)
    requires SameIgnoringCase(s, t) && i < |s|
    ensures |s| == |t| && UpperChar(s[i]) == UpperChar(t[i])
  {
    assert Upper(s)[i] == Upper(t)[i];
  }

  lemma SameParts(s: string, t: string, u: string, v: string)
    requires |s| == |u|
    ensures SameIgnoringCase(s + t, u + v) <==> SameIgnoringCase(s, u) && SameIgnoringCase(t, v)
  {
    assert Upper(s + t) == Upper(s) + Upper(t);
    assert Upper(u + v) == Upper(u) + Upper(v);
    if Upper(s + t) == Upper(u + v) {
      assert Upper(s) == Upper(s + t)[..|s|] && Upper(u) == Upper(u + v)[..|s|];
      assert Upper(t) == Upper(s + t)[|s|..] && Upper(v) == Upper(u + v)[|s|..];
    }
  }

  /** A letter word that lies at the start of a text takes up the whole plain word there. */
  lemma FirstWordLength(k: string, w: string, rest: string)
    requires LetterWord(k) && Plain(w) && (rest == [] || rest[0] == ' ') && HitHere(k, w + rest)
    ensures |w| == |k|
  {
    var whole := w + rest;
    assert |w| < |whole| ==> whole[|w|] == ' ';
    assert |k| < |whole| ==> IsBoundary(whole[|k|]);
    assert |k| < |w| ==> PlainChar(whole[|k|]);
    if |w| < |k| {
      SameAt(whole[..|k|], k, |w|);
    }
  }

  /** One letter word lies at the start of a text exactly when it is the text's first word. */
  lemma OneWordHit(k: string, words: seq<string>)
    requires LetterWord(k) && words != [] && AllWords(words)
    ensures HitHere(k, Join(words)) <==> SameIgnoringCase(words[0], k)
  {
    var w, rest := words[0], Join(words);
    JoinRest(words);
    assert Word(w);
    if SameIgnoringCase(w, k) {
      SameAt(w, k, 0);
      assert rest[..|k|] == w;
    }
    if HitHere(k, rest) {
      SameAt(rest[..|k|], k, 0);
      assert IsLetter(rest[0]);
      assert Plain(w);
      FirstWordLength(k, w, Rest(words));
      assert rest[..|k|] == w;
    }
  }

  lemma FrontHit(k: string, tail: string, rest: string)
    requires HitHere(k + " " + tail, rest)
    ensures HitHere(k, rest) && |rest| > |k| && rest[|k|] == ' ' && HitHere(tail, rest[|k| + 1..])
  {
    var key := k + " " + tail;
    var front := rest[..|key|];
    assert front == front[..|k|] + (front[|k|..|k| + 1] + front[|k| + 1..]);
    assert key == k + (" " + tail);
    SameParts(front[..|k|], front[|k|..|k| + 1] + front[|k| + 1..], k, " " + tail);
    SameParts(front[|k|..|k| + 1], front[|k| + 1..], " ", tail);
    SameAt(front[|k|..|k| + 1], " ", 0);
    assert front[..|k|] == rest[..|k|];
    assert front[|k| + 1..] == rest[|k| + 1..][..|tail|];
  }

  lemma BackHit(w: string, k: string, tail: string, rest: string)
    requires SameIgnoringCase(w, k) && HitHere(tail, rest)
    ensures HitHere(k + " " + tail, w + " " + rest)
  {
    assert |w| == |k| by {
      assert |Upper(w)| == |Upper(k)|;
    }
    var key, whole := k + " " + tail, w + " " + rest;
    assert whole[..|key|] == w + " " + rest[..|tail|];
    SameParts(w + " ", rest[..|tail|], k + " ", tail);
    SameParts(w, " ", k, " ");
  }

  lemma WordsAfter(words: seq<string>)
    requires |words| > 1 && AllWords(words)
    ensures AllWords(words[1..]) && Join(words) == words[0] + " " + Join(words[1..])
  {
    assert forall i :: 0 <= i < |words[1..]| ==> words[1..][i] == words[i + 1];
  }

  lemma KeywordsAfter(kws: seq<string>)
    requires |kws| > 1 && Keywords(kws)
    ensures Keywords(kws[1..]) && Join(kws) == kws[0] + " " + Join(kws[1..])
  {
    assert forall i :: 0 <= i < |kws[1..]| ==> kws[1..][i] == kws[i + 1];
  }

  /** The first word matches, and a further one follows it. */
  lemma FirstOfMany(k: string, tail: string, words: seq<string>)
    requires LetterWord(k) && words != [] && AllWords(words) && HitHere(k + " " + tail, Join(words))
    ensures |words| > 1 && SameIgnoringCase(words[0], k) && HitHere(tail, Join(words[1..]))
  {
    hide HitHere, Word;
    FrontHit(k, tail, Join(words));
    OneWordHit(k, words);
    assert |words[0]| == |k| by {
      SameAt(words[0], k, 0);
    }
    JoinRest(words);
    assert Join(words)[|k| + 1..] == Join(words[1..]);
  }

  /** Keywords lie at the start of a text exactly when its words start with them. */
  lemma {:induction false} WordsHit(kws: seq<string>, words: seq<string>)
    requires Keywords(kws) && words != [] && AllWords(words)
    ensures HitHere(Join(kws), Join(words)) <==> StartsWith(words, kws)
    decreases |kws|
  {
    hide HitHere, Word, LetterWord;
    var k := kws[0];
    assert LetterWord(k);
    if |kws| == 1 {
      OneWordHit(k, words);
      assert kws[1..] == [];
    } else {
      KeywordsAfter(kws);
      if HitHere(Join(kws), Join(words)) {
        FirstOfMany(k, Join(kws[1..]), words);
        WordsAfter(words);
        WordsHit(kws[1..], words[1..]);
      }
      if StartsWith(words, kws) {
        assert StartsWith(words[1..], kws[1..]) && kws[1..] != [];
        WordsAfter(words);
        WordsHit(kws[1..], words[1..]);
        BackHit(words[0], k, Join(kws[1..]), Join(words[1..]));
      }
    }
  }

  lemma HitIsHere(key: string, prev: Option<char>, rest: string)
    ensures Hit(key, prev, START, rest) <==> BoundaryBefore(prev) && HitHere(key, rest)
  {
  }

  // ---- the search word by word ----

  function LastOr(prev: Option<char>, w: string): Option<char> {
    if w == [] then prev else Some(w[|w| - 1])
  }

  lemma {:induction false} SkipSilent(key: string, prev: Option<char>, st: Scan, w: string, tail: string)
    requires IsKeyword(key) && Silent(st, w)
    ensures Find(key, prev, st, w + tail) == Shift(|w|, Find(key, LastOr(prev, w), After(st, w), tail))
    decreases |w|
  {
    if w == [] {
      assert w + tail == tail;
    } else {
      if Hit(key, prev, st, w + tail) {
        HitIsLetter(key, prev, st, w + tail);
      }
      assert (w + tail)[1..] == w[1..] + tail;
      SkipSilent(key, Some(w[0]), Step(st, w[0]), w[1..], tail);
    }
  }

  lemma {:induction false} SkipPlain(key: string, prev: char, w: string, tail: string)
    requires IsKeyword(key) && PlainChar(prev) && forall i :: 0 <= i < |w| ==> PlainChar(w[i])
    ensures Find(key, Some(prev), START, w + tail) == Shift(|w|, Find(key, LastOr(Some(prev), w), START, tail))
    decreases |w|
  {
    if w == [] {
      assert w + tail == tail;
    } else {
      assert !IsBoundary(prev);
      assert (w + tail)[1..] == w[1..] + tail;
      SkipPlain(key, w[0], w[1..], tail);
    }
  }

  lemma SkipWord(key: string, prev: Option<char>, w: string, tail: string)
    requires IsKeyword(key) && Word(w) && !Hit(key, prev, START, w + tail)
    ensures Find(key, prev, START, w + tail) == Shift(|w|, Find(key, Some(w[|w| - 1]), START, tail))
  {
    hide Find, Hit, Silent, IsKeyword;
    if Plain(w) {
      PlainWordSkipped(key, prev, w, tail);
    } else {
      SkipSilent(key, prev, START, w, tail);
    }
  }

  lemma PlainWordSkipped(key: string, prev: Option<char>, w: string, tail: string)
    requires IsKeyword(key) && Plain(w) && !Hit(key, prev, START, w + tail)
    ensures Find(key, prev, START, w + tail) == Shift(|w|, Find(key, Some(w[|w| - 1]), START, tail))
  {
    hide Hit, IsKeyword;
    assert (w + tail)[1..] == w[1..] + tail;
    SkipPlain(key, w[0], w[1..], tail);
    assert LastOr(Some(w[0]), w[1..]) == Some(w[|w| - 1]);
  }

  lemma SkipSpace(key: string, prev: Option<char>, rest: string)
    requires IsKeyword(key)
    ensures Find(key, prev, START, " " + rest) == Shift(1, Find(key, Some(' '), START, rest))
  {
    QuoteIsNoHit(key, prev, START, " " + rest);
    assert (" " + rest)[1..] == rest;
  }

  /** The keyword search on joined words finds the first matching word. */
  lemma {:induction false} FindAmongWords(kws: seq<string>, words: seq<string>, prev: Option<char>)
    requires Keywords(kws) && words != [] && AllWords(words) && BoundaryBefore(prev)
    ensures var found := FirstMatch(kws, words);
      Find(Join(kws), prev, START, Join(words)) == if found.Some? then Some(Offset(words, found.value)) else None
    decreases |words|
  {
    hide Find, Hit, Word, Keywords, StartsWith, HitHere;
    var key := Join(kws);
    KeywordsJoin(kws);
    WordsHit(kws, words);
    HitIsHere(key, prev, Join(words));
    WordsThere(words);
    FindAtHit(key, prev, Join(words));
    JoinRest(words);
    if !StartsWith(words, kws) {
      SkipWord(key, prev, words[0], Rest(words));
      if |words| == 1 {
        FindNothing(key, Some(words[0][|words[0]| - 1]), START);
      } else {
        WordsAfter(words);
        SkipSpace(key, Some(words[0][|words[0]| - 1]), Join(words[1..]));
        FindAmongWords(kws, words[1..], Some(' '));
      }
    }
  }

  lemma WordsThere(words: seq<string>)
    requires words != [] && AllWords(words)
    ensures Join(words) != [] && words[0] != []
  {
    JoinTight(words);
    assert Word(words[0]);
  }

  lemma FindAtHit(key: string, prev: Option<char>, rest: string)
    requires rest != []
    ensures Hit(key, prev, START, rest) ==> Find(key, prev, START, rest) == Some(0)
  {
  }

  // ---- splitting word by word ----

  /** Words with a separator between the chunks. */
  function Chunked(separator: string, chunks: seq<seq<string>>): seq<string> {
    if chunks == [] then []
    else if |chunks| == 1 then chunks[0]
    else chunks[0] + [separator] + Chunked(separator, chunks[1..])
  }

  function Joined(chunks: seq<seq<string>>): (r: seq<string>)
    ensures |r| == |chunks|
  {
    if chunks == [] then [] else [Join(chunks[0])] + Joined(chunks[1..])
  }

  /** Every chunk has words, and none of them is the separator. */
  ghost predicate Chunks(separator: string, chunks: seq<seq<string>>) {
    chunks != [] && forall i :: 0 <= i < |chunks| ==> Chunk(separator, chunks[i])
  }

  predicate Chunk(separator: string, chunk: seq<string>) {
    chunk != [] && AllWords(chunk) && forall i :: 0 <= i < |chunk| ==> !SameIgnoringCase(chunk[i], separator)
  }

  lemma SameAsItself(s: string)
    ensures SameIgnoringCase(s, s)
  {
  }

  lemma StartsWithOne(words: seq<string>, k: string)
    ensures StartsWith(words, [k]) <==> words != [] && SameIgnoringCase(words[0], k)
  {
    assert [k][1..] == [];
  }

  lemma {:induction false} FirstSeparator(separator: string, chunk: seq<string>, more: seq<string>)
    requires forall i :: 0 <= i < |chunk| ==> !SameIgnoringCase(chunk[i], separator)
    ensures FirstMatch([separator], chunk) == None
    ensures FirstMatch([separator], chunk + [separator] + more) == Some(|chunk|)
  {
    hide SameIgnoringCase;
    var all := chunk + [separator] + more;
    StartsWithOne(all, separator);
    if chunk == [] {
      assert all[0] == separator;
      SameAsItself(separator);
    } else {
      assert all[0] == chunk[0] && all[1..] == chunk[1..] + [separator] + more;
      StartsWithOne(chunk, separator);
      FirstSeparator(separator, chunk[1..], more);
    }
  }

  lemma {:induction false} OffsetOfJoin(words: seq<string>, more: seq<string>)
    requires words != [] && more != []
    ensures Offset(words + more, |words|) == |Join(words)| + 1
  {
    var n := |words| - 1;
    var all, tail := words + more, words[1..] + more;
    assert all[0] == words[0] && all[1..] == tail;
    if n == 0 {
      assert Offset(tail, 0) == 0;
      assert Offset(all, 1) == |words[0]| + 1;
    } else {
      OffsetOfJoin(words[1..], more);
      assert Offset(tail, n) == |Join(words[1..])| + 1;
      assert Offset(all, n + 1) == |words[0]| + 1 + Offset(tail, n);
    }
  }

  lemma {:induction false} ChunkedWords(separator: string, chunks: seq<seq<string>>)
    requires Plain(separator) && Chunks(separator, chunks)
    ensures Chunked(separator, chunks) != [] && AllWords(Chunked(separator, chunks))
    decreases |chunks|
  {
    assert Chunk(separator, chunks[0]);
    if |chunks| > 1 {
      assert Chunks(separator, chunks[1..]) by {
        assert forall i :: 0 <= i < |chunks[1..]| ==> chunks[1..][i] == chunks[i + 1];
      }
      ChunkedWords(separator, chunks[1..]);
    }
  }

  lemma SegmentsAfterSpace(key: string, prev: Option<char>, rest: string)
    requires IsKeyword(key)
    ensures Segments(key, [], prev, START, " " + rest) == Segments(key, " ", Some(' '), START, rest)
  {
    QuoteIsNoHit(key, prev, START, " " + rest);
    assert (" " + rest)[1..] == rest;
    assert [] + [' '] == " ";
  }

  lemma ChunksAfter(separator: string, chunks: seq<seq<string>>)
    requires |chunks| > 1 && Chunks(separator, chunks)
    ensures Chunks(separator, chunks[1..])
  {
    assert forall i :: 0 <= i < |chunks[1..]| ==> chunks[1..][i] == chunks[i + 1];
  }

  /** The first chunk lies before the first hit, and the other chunks, after a space, behind it. */
  lemma FirstChunk(separator: string, chunk: seq<string>, more: seq<string>, prev: Option<char>)
    requires LetterWord(separator) && Chunk(separator, chunk) && more != [] && AllWords(more) && BoundaryBefore(prev)
    ensures var text := Join(chunk + [separator] + more);
      && Find(separator, prev, START, text) == Some(|Join(chunk)| + 1)
      && text[..|Join(chunk)| + 1] == Join(chunk) + " "
      && |Join(chunk)| + 1 + |separator| <= |text|
      && text[|Join(chunk)| + 1 + |separator|..] == " " + Join(more)
  {
    hide Find, Word, Join, Offset, FirstMatch;
    var words := chunk + [separator] + more;
    SeparatorIsPlain(separator);
    PlainIsWord(separator);
    FindAmongWords([separator], words, prev);
    FirstSeparator(separator, chunk, more);
    assert words == chunk + ([separator] + more);
    OffsetOfJoin(chunk, [separator] + more);
    JoinAppend(chunk, [separator] + more);
    JoinAppend([separator], more);
    CutOut(Join(chunk), separator, Join(more));
  }

  lemma PlainIsWord(w: string)
    requires Plain(w)
    ensures Word(w)
  {
  }

  lemma CutOut(first: string, separator: string, rest: string)
    ensures var text := first + " " + (separator + " " + rest);
      && |first| + 1 + |separator| <= |text|
      && text[..|first| + 1] == first + " "
      && text[|first| + 1 + |separator|..] == " " + rest
  {
    var text := first + " " + (separator + " " + rest);
    assert text == (first + " " + separator) + (" " + rest);
  }

  lemma OnlyChunk(separator: string, chunk: seq<string>, prev: Option<char>)
    requires LetterWord(separator) && Chunk(separator, chunk) && BoundaryBefore(prev)
    ensures Find(separator, prev, START, Join(chunk)) == None
  {
    hide Find, Word;
    SeparatorIsPlain(separator);
    FindAmongWords([separator], chunk, prev);
    FirstSeparator(separator, chunk, []);
  }

  /** Splitting joined chunks at their separator gives the joined chunks back. */
  lemma {:induction false} SplitChunks(separator: string, chunks: seq<seq<string>>, lead: string, prev: Option<char>)
    requires LetterWord(separator) && Chunks(separator, chunks) && Spaces(lead) && BoundaryBefore(prev)
    ensures Segments(separator, lead, prev, START, Join(Chunked(separator, chunks))) == Ok(Joined(chunks))
    decreases |chunks|
  {
    hide Segments, Find, Trim, Word, LetterWord, Chunks, IsKeyword;
    SeparatorIsPlain(separator);
    FirstIsChunk(separator, chunks);
    var first, text := Join(chunks[0]), Join(Chunked(separator, chunks));
    SegmentsByFind(separator, lead, prev, START, text);
    JoinTight(chunks[0]);
    if |chunks| == 1 {
      OnlyChunk(separator, chunks[0], prev);
      TrimTight(lead, first, []);
      assert lead + first + [] == lead + first;
      assert Joined(chunks) == [first] + Joined(chunks[1..]);
      assert [first] + [] == [first];
    } else {
      ChunksAfter(separator, chunks);
      var more := Chunked(separator, chunks[1..]);
      ChunkedWords(separator, chunks[1..]);
      FirstChunk(separator, chunks[0], more, prev);
      TrimTight(lead, first, " ");
      assert lead + (first + " ") == lead + first + " ";
      SegmentsAfterSpace(separator, Some(separator[|separator| - 1]), Join(more));
      SplitChunks(separator, chunks[1..], " ", Some(' '));
    }
  }

  lemma FirstIsChunk(separator: string, chunks: seq<seq<string>>)
    requires Chunks(separator, chunks)
    ensures chunks != [] && Chunk(separator, chunks[0])
  {
  }

  lemma SeparatorIsPlain(separator: string)
    requires LetterWord(separator)
    ensures separator != [] && Plain(separator) && Keywords([separator]) && IsKeyword(separator) && Join([separator]) == separator
  {
    KeywordsJoin([separator]);
  }
}
