/** The few string operations of the .NET base library that the modelled code
    relies on, stated over `seq<char>`. */
module Text {

  /** Index of the first character of `s` that is in `seps`, or `|s|` when
      there is none (`FirstSeparatorSpec` states what that means). */
  function FirstSeparator(s: string, seps: set<char>): (k: nat)
    ensures k <= |s|
  {
    if |s| == 0 then 0
    else if s[0] in seps then 0
    else 1 + FirstSeparator(s[1..], seps)
  }

  /** The character at `FirstSeparator`, if any, is a separator. */
  lemma {:induction false} SeparatorAtFirstSeparator(s: string, seps: set<char>)
    ensures FirstSeparator(s, seps) < |s| ==> s[FirstSeparator(s, seps)] in seps
  {
    if |s| > 0 && s[0] !in seps {
      SeparatorAtFirstSeparator(s[1..], seps);
      assert FirstSeparator(s, seps) < |s| ==> s[FirstSeparator(s, seps)] == s[1..][FirstSeparator(s[1..], seps)];
    }
  }

  /** No character before `FirstSeparator` is a separator, and the character
      at it, if any, is one. */
  lemma {:induction false} FirstSeparatorSpec(s: string, seps: set<char>)
    ensures forall i :: 0 <= i < FirstSeparator(s, seps) ==> s[i] !in seps
    ensures FirstSeparator(s, seps) < |s| ==> s[FirstSeparator(s, seps)] in seps
  {
    SeparatorAtFirstSeparator(s, seps);
    if |s| > 0 && s[0] !in seps {
      FirstSeparatorSpec(s[1..], seps);
      forall i | 1 <= i < FirstSeparator(s, seps) ensures s[i] !in seps {
        assert s[i] == s[1..][i - 1];
      }
    }
  }

  /** `FirstSeparator` is the only index with those two properties. */
  lemma {:induction false} FirstSeparatorIs(s: string, seps: set<char>, k: nat)
    requires k <= |s|
    requires forall i :: 0 <= i < k ==> s[i] !in seps
    requires k < |s| ==> s[k] in seps
    ensures FirstSeparator(s, seps) == k
  {
    if |s| > 0 && s[0] !in seps {
      FirstSeparatorIs(s[1..], seps, k - 1);
    }
  }

  /** `s.Split(seps)` in .NET: the pieces between separator characters, empty
      pieces included, so the result is never empty and `|s|` separators give
      `|s| + 1` pieces. */
  function SplitAny(s: string, seps: set<char>): (r: seq<string>)
    ensures |r| >= 1
    ensures r[0] == s[..FirstSeparator(s, seps)]
    ensures |r| == 1 <==> FirstSeparator(s, seps) == |s|
    decreases |s|
  {
    var k := FirstSeparator(s, seps);
    if k == |s| then [s]
    else [s[..k]] + SplitAny(s[k + 1..], seps)
  }

  /** One step of `SplitAny` when a separator is present. */
  lemma {:induction false} SplitAnyUnfold(s: string, seps: set<char>, k: nat)
    requires k == FirstSeparator(s, seps) && k < |s|
    ensures SplitAny(s, seps) == [s[..k]] + SplitAny(s[k + 1..], seps)
  {
  }

  /** Splitting text that opens with a separator-free piece and a separator
      gives that piece followed by the pieces of the rest. */
  lemma {:induction false} SplitAnyCons(piece: string, sep: char, rest: string, seps: set<char>)
    requires sep in seps
    requires forall c :: c in seps ==> c !in piece
    ensures SplitAny(piece + [sep] + rest, seps) == [piece] + SplitAny(rest, seps)
  {
    var s := piece + [sep] + rest;
    forall i | 0 <= i < |piece| ensures s[i] !in seps {
      assert s[i] == piece[i];
    }
    FirstSeparatorIs(s, seps, |piece|);
    SplitAnyUnfold(s, seps, |piece|);
    assert s[..|piece|] == piece;
    assert s[|piece| + 1..] == rest;
  }

  /** Text without a separator is a single piece. */
  lemma {:induction false} SplitAnyNone(s: string, seps: set<char>)
    requires forall c :: c in seps ==> c !in s
    ensures SplitAny(s, seps) == [s]
  {
    FirstSeparatorIs(s, seps, |s|);
  }

  /** No character of `s` is a separator. */
  predicate NoSeparator(s: string, seps: set<char>) {
    forall i :: 0 <= i < |s| ==> s[i] !in seps
  }

  /** Text splits into one piece exactly when it has no separator. */
  lemma {:induction false} SinglePieceIffNoSeparator(s: string, seps: set<char>)
    ensures |SplitAny(s, seps)| == 1 <==> NoSeparator(s, seps)
  {
    FirstSeparatorSpec(s, seps);
  }

  /** The pieces joined back with one separator character between them. */
  function Join(pieces: seq<string>, sep: char): string
    requires |pieces| >= 1
  {
    if |pieces| == 1 then pieces[0]
    else pieces[0] + [sep] + Join(pieces[1..], sep)
  }

  /** One step of `Join` on a piece followed by at least one more. */
  lemma {:induction false} JoinCons(piece: string, pieces: seq<string>, sep: char)
    requires |pieces| >= 1
    ensures Join([piece] + pieces, sep) == piece + [sep] + Join(pieces, sep)
  {
    assert ([piece] + pieces)[1..] == pieces;
  }

  /** Text is the part before position `k`, the character there, and the rest. */
  lemma {:induction false} Reassemble(s: string, k: nat)
    requires k < |s|
    ensures s == s[..k] + [s[k]] + s[k + 1..]
  {
  }

  /** Splitting on one separator loses nothing: joining the pieces with that
      separator gives the original text back. */
  lemma {:induction false} SplitJoin(s: string, sep: char)
    ensures Join(SplitAny(s, {sep}), sep) == s
    decreases |s|
  {
    var k := FirstSeparator(s, {sep});
    if k < |s| {
      var rest := s[k + 1..];
      SplitJoin(rest, sep);
      SplitAnyUnfold(s, {sep}, k);
      JoinCons(s[..k], SplitAny(rest, {sep}), sep);
      FirstSeparatorSpec(s, {sep});
      Reassemble(s, k);
    }
  }

  /** The first piece is the separator-free text before the first separator. */
  lemma {:induction false} FirstPiece(s: string, seps: set<char>)
    ensures SplitAny(s, seps)[0] == s[..FirstSeparator(s, seps)]
    ensures NoSeparator(s[..FirstSeparator(s, seps)], seps)
  {
    var k := FirstSeparator(s, seps);
    FirstSeparatorSpec(s, seps);
    forall i | 0 <= i < k ensures s[..k][i] !in seps {
      assert s[..k][i] == s[i];
    }
  }

  /** Slicing a suffix is slicing the text further along. */
  lemma {:induction false} SliceOfSuffix(s: string, a: nat, b: nat)
    requires a + b <= |s|
    ensures s[a..][..b] == s[a..a + b]
    ensures a + b < |s| ==> s[a..][b] == s[a + b]
  {
  }

  /** The first piece runs up to the first separator and the second from
      there to the next separator or the end. */
  lemma {:induction false} FirstTwoPieces(s: string, seps: set<char>)
    requires |SplitAny(s, seps)| >= 2
    ensures var r := SplitAny(s, seps);
      var k, v := |r[0]|, |r[1]|;
      && k < |s| && s[..k] == r[0] && NoSeparator(r[0], seps) && s[k] in seps
      && k + 1 + v <= |s| && s[k + 1..k + 1 + v] == r[1] && NoSeparator(r[1], seps)
      && (k + 1 + v == |s| || s[k + 1 + v] in seps)
  {
    var r := SplitAny(s, seps);
    var k := FirstSeparator(s, seps);
    var rest := s[k + 1..];
    SplitAnyUnfold(s, seps, k);
    assert r[1] == SplitAny(rest, seps)[0];
    FirstPiece(s, seps);
    FirstPiece(rest, seps);
    SeparatorAtFirstSeparator(s, seps);
    SeparatorAtFirstSeparator(rest, seps);
    var v := FirstSeparator(rest, seps);
    assert |r[0]| == k && |r[1]| == v;
    SliceOfSuffix(s, k + 1, v);
  }

  /** No piece contains a separator character. */
  lemma {:induction false} SplitPiecesHaveNoSeparator(s: string, seps: set<char>)
    ensures forall j :: 0 <= j < |SplitAny(s, seps)| ==> NoSeparator(SplitAny(s, seps)[j], seps)
    decreases |s|
  {
    var k := FirstSeparator(s, seps);
    FirstPiece(s, seps);
    if k < |s| {
      SplitPiecesHaveNoSeparator(s[k + 1..], seps);
      var r := SplitAny(s, seps);
      SplitAnyUnfold(s, seps, k);
      assert r[1..] == SplitAny(s[k + 1..], seps);
      forall j | 0 <= j < |r| ensures NoSeparator(r[j], seps) {
        if j > 0 { assert r[j] == r[1..][j - 1]; }
      }
    }
  }

  /** `s` starts with `prefix`, compared ordinally. */
  predicate StartsWith(s: string, prefix: string) {
    |prefix| <= |s| && s[..|prefix|] == prefix
  }

  /** `sub` occurs in `s` starting at position `i`. */
  predicate OccursAt(s: string, sub: string, i: int) {
    0 <= i && i + |sub| <= |s| && s[i..i + |sub|] == sub
  }

  /** `sub` occurs in `s` at some position (`s.Contains(sub)`, ordinal). */
  ghost predicate Occurs(s: string, sub: string) {
    exists i :: OccursAt(s, sub, i)
  }

  /** `s.Contains(sub)`, computed by testing every start position in turn. */
  function Contains(s: string, sub: string): (b: bool)
    ensures b <==> Occurs(s, sub)
    decreases |s|
  {
    if |s| < |sub| then
      false
    else if s[..|sub|] == sub then
      assert OccursAt(s, sub, 0);
      true
    else
      var rest := Contains(s[1..], sub);
      ContainsStep(s, sub);
      rest
  }

  /** When `sub` is not at position 0, it occurs in `s` iff it occurs in `s[1..]`. */
  lemma {:induction false} ContainsStep(s: string, sub: string)
    requires |sub| <= |s| && s[..|sub|] != sub
    ensures Occurs(s, sub) <==> Occurs(s[1..], sub)
  {
    if Occurs(s, sub) {
      var i :| OccursAt(s, sub, i);
      assert i != 0;
      assert s[1..][i - 1..i - 1 + |sub|] == s[i..i + |sub|];
      assert OccursAt(s[1..], sub, i - 1);
    }
    if Occurs(s[1..], sub) {
      var i :| OccursAt(s[1..], sub, i);
      assert s[i + 1..i + 1 + |sub|] == s[1..][i..i + |sub|];
      assert OccursAt(s, sub, i + 1);
    }
  }

  /** `PipeParser.StripLeadingWhitespace`: drop the leading characters that the
      whitespace predicate accepts. */
  function StripLeadingWhitespace(s: string, isWhiteSpace: char -> bool): (r: string)
    ensures |r| <= |s| && r == s[|s| - |r|..]
    ensures |r| > 0 ==> !isWhiteSpace(r[0])
    ensures forall i :: 0 <= i < |s| - |r| ==> isWhiteSpace(s[i])
  {
    if |s| == 0 || !isWhiteSpace(s[0]) then s
    else StripLeadingWhitespace(s[1..], isWhiteSpace)
  }
}
