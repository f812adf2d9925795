/** LIKE patterns: the dynamic programme, and the pattern relation it decides. */
module Like {

  /** The recurrence over pattern and input prefixes. */
  predicate Matches(pattern: string, input: string)
    decreases |pattern| + |input|
  {
    if pattern == [] then input == [] else
    var p, rest := pattern[|pattern| - 1], pattern[..|pattern| - 1];
    if p == '%' then Matches(rest, input) || (input != [] && Matches(pattern, input[..|input| - 1]))
    else
      && input != []
      && Matches(rest, input[..|input| - 1])
      && (p == '_' || p == input[|input| - 1])
  }

  /** What one pattern character stands for. */
  predicate PieceMatches(p: char, piece: string) {
    if p == '%' then true
    else if p == '_' then |piece| == 1
    else piece == [p]
  }

  /** `cuts` splits the input into one piece per pattern character, each matching its character. */
  ghost predicate Splits(pattern: string, input: string, cuts: seq<nat>) {
    && |cuts| == |pattern| + 1
    && cuts[0] == 0 && cuts[|pattern|] == |input|
    && forall i :: 0 <= i < |pattern| ==> PieceAt(pattern, input, cuts, i)
  }

  ghost predicate PieceAt(pattern: string, input: string, cuts: seq<nat>, i: nat)
    requires i < |pattern| && |cuts| == |pattern| + 1
  {
    && cuts[i] <= cuts[i + 1] <= |input|
    && PieceMatches(pattern[i], input[cuts[i]..cuts[i + 1]])
  }

  /** A pattern matches exactly when the input splits into consecutive pieces, one per pattern character. */
  lemma MatchesMeansSplit(pattern: string, input: string)
    ensures Matches(pattern, input) <==> exists cuts :: Splits(pattern, input, cuts)
  {
    if Matches(pattern, input) {
      var cuts := SplitOf(pattern, input);
    }
    if exists cuts :: Splits(pattern, input, cuts) {
      var cuts :| Splits(pattern, input, cuts);
      SplitMatches(pattern, input, cuts);
    }
  }

  lemma {:induction false} SplitOf(pattern: string, input: string) returns (cuts: seq<nat>)
    requires Matches(pattern, input)
    ensures Splits(pattern, input, cuts)
    decreases |pattern| + |input|
  {
    if pattern == [] {
      cuts := [0];
    } else {
      var n := |pattern| - 1;
      if pattern[n] == '%' && !Matches(pattern[..n], input) {
        var shorter := input[..|input| - 1];
        var head := SplitOf(pattern, shorter);
        cuts := head[n + 1 := |input|];
        forall i | 0 <= i < n ensures PieceAt(pattern, input, cuts, i) {
          assert PieceAt(pattern, shorter, head, i);
          SamePiece(input, |input| - 1, head[i], head[i + 1]);
        }
        assert PieceAt(pattern, shorter, head, n);
        assert PieceAt(pattern, input, cuts, n);
      } else {
        var m := if pattern[n] == '%' then |input| else |input| - 1;
        assert input[..|input|] == input;
        var head := SplitOf(pattern[..n], input[..m]);
        cuts := head + [|input|];
        forall i | 0 <= i < n ensures PieceAt(pattern, input, cuts, i) {
          assert PieceAt(pattern[..n], input[..m], head, i);
          SamePiece(input, m, head[i], head[i + 1]);
        }
        assert pattern[n] == '%' || input[cuts[n]..cuts[n + 1]] == [input[|input| - 1]];
        assert PieceAt(pattern, input, cuts, n);
      }
    }
  }

  lemma SamePiece(input: string, m: nat, from: nat, to: nat)
    requires from <= to <= m <= |input|
    ensures input[..m][from..to] == input[from..to]
  {
  }

  lemma {:induction false} SplitMatches(pattern: string, input: string, cuts: seq<nat>)
    requires Splits(pattern, input, cuts)
    ensures Matches(pattern, input)
    decreases |pattern| + |input|
  {
    if pattern != [] {
      var n := |pattern| - 1;
      assert PieceAt(pattern, input, cuts, n);
      if pattern[n] == '%' && cuts[n] < |input| {
        var m := |input| - 1;
        var moved := cuts[n + 1 := m];
        forall i | 0 <= i < n ensures PieceAt(pattern, input[..m], moved, i) {
          assert PieceAt(pattern, input, cuts, i);
          MonotoneCuts(pattern, input, cuts, i + 1);
          SamePiece(input, m, cuts[i], cuts[i + 1]);
        }
        assert PieceAt(pattern, input[..m], moved, n);
        SplitMatches(pattern, input[..m], moved);
      } else {
        var m := cuts[n];
        var rest, head, kept := pattern[..n], input[..m], cuts[..n + 1];
        forall i | 0 <= i < n ensures PieceAt(rest, head, kept, i) {
          assert PieceAt(pattern, input, cuts, i);
          MonotoneCuts(pattern, input, cuts, i + 1);
          SamePiece(input, m, cuts[i], cuts[i + 1]);
        }
        SplitMatches(rest, head, kept);
        if pattern[n] == '%' {
          assert input[..m] == input;
        } else {
          assert |input[m..]| == 1 && input[m..] == input[cuts[n]..cuts[n + 1]];
          assert input[m..][0] == input[m] && m == |input| - 1;
        }
      }
    }
  }

  /** Every cut lies at or before the last but one, or is the last. */
  lemma {:induction false} MonotoneCuts(pattern: string, input: string, cuts: seq<nat>, i: nat)
    requires Splits(pattern, input, cuts) && i < |pattern|
    ensures cuts[i] <= cuts[|pattern| - 1]
    decreases |pattern| - i
  {
    if i < |pattern| - 1 {
      assert PieceAt(pattern, input, cuts, i);
      MonotoneCuts(pattern, input, cuts, i + 1);
    }
  }

  /** What entry [i][j] of the table must say: i pattern characters match j input characters. */
  predicate Entry(pattern: string, input: string, i: nat, j: nat)
    requires i <= |pattern| && j <= |input|
  {
    Matches(pattern[..i], input[..j])
  }

  lemma EntryStart(pattern: string, input: string)
    ensures Entry(pattern, input, 0, 0)
    ensures forall j :: 0 < j <= |input| ==> !Entry(pattern, input, 0, j)
    ensures forall i :: 0 < i <= |pattern| ==>
      (Entry(pattern, input, i, 0) <==> pattern[i - 1] == '%' && Entry(pattern, input, i - 1, 0))
  {
    forall i | 0 < i <= |pattern|
      ensures Entry(pattern, input, i, 0) <==> pattern[i - 1] == '%' && Entry(pattern, input, i - 1, 0)
    {
      assert pattern[..i][..i - 1] == pattern[..i - 1];
    }
  }

  lemma EntryStep(pattern: string, input: string, i: nat, j: nat)
    requires 0 < i <= |pattern| && 0 < j <= |input|
    ensures Entry(pattern, input, i, j) ==
      if pattern[i - 1] == '%' then Entry(pattern, input, i - 1, j) || Entry(pattern, input, i, j - 1)
      else if pattern[i - 1] == '_' then Entry(pattern, input, i - 1, j - 1)
      else Entry(pattern, input, i - 1, j - 1) && pattern[i - 1] == input[j - 1]
  {
    assert pattern[..i][..i - 1] == pattern[..i - 1] && input[..j][..j - 1] == input[..j - 1];
  }

  /** `like_matches`: the table whose entry [i][j] says whether i pattern characters match j input characters. */
  method LikeMatches(input: string, pattern: string) returns (r: bool)
    ensures r == Matches(pattern, input)
    ensures r <==> exists cuts :: Splits(pattern, input, cuts)
  {
    MatchesMeansSplit(pattern, input);
    assert pattern[..|pattern|] == pattern && input[..|input|] == input;
    assert Entry(pattern, input, |pattern|, |input|) == Matches(pattern, input);
    hide Matches, Entry, Splits;
    EntryStart(pattern, input);
    var dp := new bool[|pattern| + 1, |input| + 1]((i, j) => false);
    dp[0, 0] := true;
    for i := 1 to |pattern| + 1
      invariant forall k :: 0 <= k < i ==> dp[k, 0] == Entry(pattern, input, k, 0)
      invariant forall k, j :: 0 <= k <= |pattern| && 0 <= j <= |input| && (j > 0 || k >= i) ==> !dp[k, j]
    {
      if pattern[i - 1] == '%' {
        dp[i, 0] := dp[i - 1, 0];
      }
    }
    for i := 1 to |pattern| + 1
      invariant forall k :: 0 <= k <= |pattern| ==> dp[k, 0] == Entry(pattern, input, k, 0)
      invariant forall k, j :: 0 <= k < i && 0 <= j <= |input| ==> dp[k, j] == Entry(pattern, input, k, j)
    {
      for j := 1 to |input| + 1
        invariant forall k :: 0 <= k <= |pattern| ==> dp[k, 0] == Entry(pattern, input, k, 0)
        invariant forall k, l :: 0 <= k < i && 0 <= l <= |input| ==> dp[k, l] == Entry(pattern, input, k, l)
        invariant forall l :: 0 <= l < j ==> dp[i, l] == Entry(pattern, input, i, l)
      {
        var p, c := pattern[i - 1], input[j - 1];
        EntryStep(pattern, input, i, j);
        dp[i, j] :=
          if p == '%' then dp[i - 1, j] || dp[i, j - 1]
          else if p == '_' then dp[i - 1, j - 1]
          else dp[i - 1, j - 1] && p == c;
      }
    }
    r := dp[|pattern|, |input|];
  }
}
