/** `EncodingDetector`: decides, for one dialect, whether a message looks ER7
    (pipe-delimited) or XML encoded. `AssertEr7Encoded` is a loop that ends at
    the first bad segment; the XML check is two substring tests; `IsEr7Encoded`
    and `IsXmlEncoded` turn a failure into `false`.
    `char.IsWhiteSpace` is the parameter `isWhiteSpace`. */
module EncodingDetector {
  import opened Wrappers
  import opened Text
  import opened Dialects
  import opened Delimiters

  /** Segments are separated by a carriage return. */
  const SegmentDelimiter: char := '\r'

  /** What the checks throw, by kind. */
  datatype DetectError =
    | NullMessage              // the message is null (NullReferenceException)
    | MessageTooShort          // ArgumentException: shorter than the header name plus one
    | HeaderNameMismatch       // ArgumentException: does not start with the header name
    | FieldDelimiterMismatch   // InvalidOperationException: a segment lacks the field delimiter
    | IndexOutOfRange          // a negative header name size used as a string index
    | XmlElementMissing(fieldNumber: nat)  // ArgumentException: no "{H}.1>" or "{H}.2>"

  /** The field delimiter stands at position `p` of `token`. */
  predicate DelimiterAt(token: string, p: int, fieldDelimiter: char) {
    0 <= p < |token| && token[p] == fieldDelimiter
  }

  /** `sizes[k]` is negative and no earlier size matched, so `Any` throws there. */
  predicate NegativeBeforeMatch(sizes: seq<int>, token: string, fieldDelimiter: char, k: int) {
    && 0 <= k < |sizes| && sizes[k] < 0
    && forall j :: 0 <= j < k ==> !DelimiterAt(token, sizes[j], fieldDelimiter)
  }

  /** `sizes[k]` matches and every earlier size is non-negative, so `Any`
      reaches it without throwing. */
  predicate MatchAfterNonNegative(sizes: seq<int>, token: string, fieldDelimiter: char, k: int) {
    && 0 <= k < |sizes| && DelimiterAt(token, sizes[k], fieldDelimiter)
    && forall j :: 0 <= j < k ==> sizes[j] >= 0
  }

  /** `sizes.Any(p => p < token.Length && token[p] == fieldDelimiter)`: the sizes
      are tried in order, and a negative size throws when it is reached. */
  function AnySizeMatches(sizes: seq<int>, token: string, fieldDelimiter: char): (r: Result<bool, DetectError>)
    ensures r.Failure? ==> r.error == IndexOutOfRange
    ensures r.Failure? <==> exists k :: NegativeBeforeMatch(sizes, token, fieldDelimiter, k)
    ensures r == Success(true) <==> exists k :: MatchAfterNonNegative(sizes, token, fieldDelimiter, k)
  {
    if |sizes| == 0 then Success(false)
    else
      var p := sizes[0];
      if p < |token| && p < 0 then
        assert NegativeBeforeMatch(sizes, token, fieldDelimiter, 0);
        assert !MatchAfterNonNegative(sizes, token, fieldDelimiter, 0) && forall k :: 0 < k < |sizes| ==> !MatchAfterNonNegative(sizes, token, fieldDelimiter, k);
        Failure(IndexOutOfRange)
      else if p < |token| && token[p] == fieldDelimiter then
        assert MatchAfterNonNegative(sizes, token, fieldDelimiter, 0);
        assert forall k :: 0 <= k < |sizes| ==> !NegativeBeforeMatch(sizes, token, fieldDelimiter, k);
        Success(true)
      else
        var rest := AnySizeMatches(sizes[1..], token, fieldDelimiter);
        AnySizeMatchesShift(sizes, token, fieldDelimiter);
        rest
  }

  /** Past a first size that neither throws nor matches, both witnesses move
      one place along. */
  lemma {:induction false} AnySizeMatchesShift(sizes: seq<int>, token: string, fieldDelimiter: char)
    requires |sizes| > 0 && sizes[0] >= 0 && !DelimiterAt(token, sizes[0], fieldDelimiter)
    ensures (exists k :: NegativeBeforeMatch(sizes, token, fieldDelimiter, k))
        <==> (exists k :: NegativeBeforeMatch(sizes[1..], token, fieldDelimiter, k))
    ensures (exists k :: MatchAfterNonNegative(sizes, token, fieldDelimiter, k))
        <==> (exists k :: MatchAfterNonNegative(sizes[1..], token, fieldDelimiter, k))
  {
    var tail := sizes[1..];
    assert forall j :: 1 <= j < |sizes| ==> sizes[j] == tail[j - 1];
    if k :| NegativeBeforeMatch(sizes, token, fieldDelimiter, k) {
      assert NegativeBeforeMatch(tail, token, fieldDelimiter, k - 1);
    }
    if k :| NegativeBeforeMatch(tail, token, fieldDelimiter, k) {
      assert NegativeBeforeMatch(sizes, token, fieldDelimiter, k + 1);
    }
    if k :| MatchAfterNonNegative(sizes, token, fieldDelimiter, k) {
      assert MatchAfterNonNegative(tail, token, fieldDelimiter, k - 1);
    }
    if k :| MatchAfterNonNegative(tail, token, fieldDelimiter, k) {
      assert MatchAfterNonNegative(sizes, token, fieldDelimiter, k + 1);
    }
  }

  /** C#'s unchecked `int` arithmetic: the result wrapped into the 32-bit
      signed range. */
  function WrapInt32(x: int): (r: int)
    ensures -0x8000_0000 <= r < 0x8000_0000
    ensures -0x8000_0000 <= x < 0x8000_0000 ==> r == x
    ensures (r - x) % 0x1_0000_0000 == 0
  {
    (x + 0x8000_0000) % 0x1_0000_0000 - 0x8000_0000
  }

  /** The check applied to one segment (`tokens[i]` in the loop): an empty segment
      passes; otherwise leading whitespace is stripped, then with a single name
      size `n` the segment fails only when it is longer than `n` and its
      character at `n` is not the field delimiter, and with several sizes it
      passes only when one of them puts the field delimiter inside it. The
      length test `n + 1` is 32-bit arithmetic, so for `n == int.MaxValue` it
      wraps to `int.MinValue`, and the index that follows is out of range. */
  function SegmentCheck(token: string, fieldDelimiter: char, sizes: seq<int>, isWhiteSpace: char -> bool): (r: Outcome<DetectError>)
    ensures |token| == 0 ==> r == Pass
    ensures r.Fail? ==> r.error == IndexOutOfRange || r.error == FieldDelimiterMismatch
  {
    if |token| == 0 then Pass
    else
      var t := if isWhiteSpace(token[0]) then StripLeadingWhitespace(token, isWhiteSpace) else token;
      if |sizes| == 1 then
        if |t| >= WrapInt32(sizes[0] + 1) then
          if sizes[0] < 0 || sizes[0] >= |t| then Fail(IndexOutOfRange)
          else if t[sizes[0]] != fieldDelimiter then Fail(FieldDelimiterMismatch)
          else Pass
        else Pass
      else
        match AnySizeMatches(sizes, t, fieldDelimiter)
        case Failure(e) => Fail(e)
        case Success(oneMatched) => if oneMatched then Pass else Fail(FieldDelimiterMismatch)
  }

  /** Segment `j` is the first to fail, and it fails with `r`. */
  predicate FirstFailureAt(tokens: seq<string>, j: int, fieldDelimiter: char, sizes: seq<int>, isWhiteSpace: char -> bool, r: Outcome<DetectError>) {
    && 0 <= j < |tokens|
    && SegmentCheck(tokens[j], fieldDelimiter, sizes, isWhiteSpace) == r
    && forall i :: 0 <= i < j ==> SegmentCheck(tokens[i], fieldDelimiter, sizes, isWhiteSpace).Pass?
  }

  /** The segments checked in order; the first failure is the outcome. */
  function CheckSegments(tokens: seq<string>, fieldDelimiter: char, sizes: seq<int>, isWhiteSpace: char -> bool): (r: Outcome<DetectError>)
    ensures r.Pass? <==> forall j :: 0 <= j < |tokens| ==> SegmentCheck(tokens[j], fieldDelimiter, sizes, isWhiteSpace).Pass?
    ensures r.Fail? ==> exists j :: FirstFailureAt(tokens, j, fieldDelimiter, sizes, isWhiteSpace, r)
  {
    if |tokens| == 0 then Pass
    else
      match SegmentCheck(tokens[0], fieldDelimiter, sizes, isWhiteSpace)
      case Fail(e) =>
        assert FirstFailureAt(tokens, 0, fieldDelimiter, sizes, isWhiteSpace, Fail(e));
        Fail(e)
      case Pass =>
        var rest := CheckSegments(tokens[1..], fieldDelimiter, sizes, isWhiteSpace);
        assert forall j :: 1 <= j < |tokens| ==> tokens[j] == tokens[1..][j - 1];
        if rest.Fail? then
          LaterFailure(tokens, fieldDelimiter, sizes, isWhiteSpace, rest);
          rest
        else
          rest
  }

  /** A first failure among the later segments, after a passing first one, is
      the first failure of all. */
  lemma {:induction false} LaterFailure(tokens: seq<string>, fieldDelimiter: char, sizes: seq<int>, isWhiteSpace: char -> bool, r: Outcome<DetectError>)
    requires |tokens| > 0 && SegmentCheck(tokens[0], fieldDelimiter, sizes, isWhiteSpace).Pass?
    requires exists j :: FirstFailureAt(tokens[1..], j, fieldDelimiter, sizes, isWhiteSpace, r)
    ensures exists j :: FirstFailureAt(tokens, j, fieldDelimiter, sizes, isWhiteSpace, r)
  {
    var j :| FirstFailureAt(tokens[1..], j, fieldDelimiter, sizes, isWhiteSpace, r);
    forall i | 1 <= i < j + 1 ensures SegmentCheck(tokens[i], fieldDelimiter, sizes, isWhiteSpace).Pass? {
      assert tokens[i] == tokens[1..][i - 1];
    }
    assert tokens[j + 1] == tokens[1..][j];
    assert FirstFailureAt(tokens, j + 1, fieldDelimiter, sizes, isWhiteSpace, r);
  }

  /** The outcome of `AssertEr7Encoded(message, messageConstants)`. */
  function Er7Check(message: Option<string>, mc: MessageConstants, isWhiteSpace: char -> bool): (r: Outcome<DetectError>)
    ensures r == Fail(NullMessage) <==> message.None?
    ensures r == Fail(MessageTooShort) <==> message.Some? && |message.value| < |mc.HeaderSegmentName| + 1
    ensures r == Fail(HeaderNameMismatch) <==>
      message.Some? && |message.value| >= |mc.HeaderSegmentName| + 1 && !StartsWith(message.value, mc.HeaderSegmentName)
  {
    match message
    case None => Fail(NullMessage)
    case Some(m) =>
      var name := mc.HeaderSegmentName;
      if |m| < |name| + FieldDelimiterLength then Fail(MessageTooShort)
      else if !StartsWith(m, name) then Fail(HeaderNameMismatch)
      else CheckSegments(SplitAny(m, {SegmentDelimiter}), m[|name|], mc.HeaderNameSizes, isWhiteSpace)
  }

  /** A reference statement of ER7 acceptance: long enough, starting with the
      header name, and every carriage-return separated segment passing
      `SegmentCheck` against the character right after the header name. */
  ghost predicate IsEr7(message: Option<string>, mc: MessageConstants, isWhiteSpace: char -> bool) {
    && message.Some?
    && |message.value| >= |mc.HeaderSegmentName| + 1
    && StartsWith(message.value, mc.HeaderSegmentName)
    && var tokens := SplitAny(message.value, {SegmentDelimiter});
       forall j :: 0 <= j < |tokens| ==>
         SegmentCheck(tokens[j], message.value[|mc.HeaderSegmentName|], mc.HeaderNameSizes, isWhiteSpace).Pass?
  }

  /** `Er7Check` passes exactly on the messages `IsEr7` describes. */
  lemma {:induction false} Er7CheckPassesIffIsEr7(message: Option<string>, mc: MessageConstants, isWhiteSpace: char -> bool)
    ensures Er7Check(message, mc, isWhiteSpace).Pass? <==> IsEr7(message, mc, isWhiteSpace)
  {
  }

  /** `AssertEr7Encoded`: returns `Pass` or the exception it would throw. */
  method AssertEr7Encoded(message: Option<string>, mc: MessageConstants, isWhiteSpace: char -> bool)
    returns (r: Outcome<DetectError>)
    ensures r == Er7Check(message, mc, isWhiteSpace)
    ensures r.Pass? <==> IsEr7(message, mc, isWhiteSpace)
  {
    if message.None? {
      return Fail(NullMessage);
    }
    var m := message.value;
    // a message that cannot hold the header name and a delimiter is rejected
    if |m| < |mc.HeaderSegmentName| + FieldDelimiterLength {
      return Fail(MessageTooShort);
    }
    if !StartsWith(m, mc.HeaderSegmentName) {
      return Fail(HeaderNameMismatch);
    }
    // every segment is compared against the character that follows the header name
    var fieldDelimiter := m[|mc.HeaderSegmentName|];
    var tokens := SplitAny(m, {SegmentDelimiter});
    ghost var sizes := mc.HeaderNameSizes;
    for i := 0 to |tokens|
      invariant CheckSegments(tokens[i..], fieldDelimiter, sizes, isWhiteSpace)
             == CheckSegments(tokens, fieldDelimiter, sizes, isWhiteSpace)
    {
      assert tokens[i..][1..] == tokens[i + 1..];
      var token := tokens[i];
      if |token| > 0 {
        if isWhiteSpace(token[0]) {
          token := StripLeadingWhitespace(token, isWhiteSpace);
        }
        if |mc.HeaderNameSizes| == 1 {
          var indexAfterHeaderName := mc.HeaderNameSizes[0];
          if |token| >= WrapInt32(indexAfterHeaderName + 1) {
            if indexAfterHeaderName < 0 || indexAfterHeaderName >= |token| {
              return Fail(IndexOutOfRange);
            }
            if token[indexAfterHeaderName] != fieldDelimiter {
              return Fail(FieldDelimiterMismatch);
            }
          }
        } else {
          var oneMatched := AnySizeMatches(mc.HeaderNameSizes, token, fieldDelimiter);
          if oneMatched.Failure? {
            return Fail(oneMatched.error);
          }
          if !oneMatched.value {
            return Fail(FieldDelimiterMismatch);
          }
        }
      }
    }
    return Pass;
  }

  /** `IsEr7Encoded`: true iff `AssertEr7Encoded` completes; it never throws. */
  method IsEr7Encoded(message: Option<string>, mc: MessageConstants, isWhiteSpace: char -> bool) returns (b: bool)
    ensures b <==> IsEr7(message, mc, isWhiteSpace)
  {
    var r := AssertEr7Encoded(message, mc, isWhiteSpace);
    b := r.Pass?;
  }

  /** `AssertXmlEncoded`: the message must contain "{H}.1>" and then also
      "{H}.2>", where {H} is the header segment name. */
  function AssertXmlEncoded(message: Option<string>, mc: MessageConstants): (r: Outcome<DetectError>)
    ensures message.None? ==> r == Fail(NullMessage)
    ensures r.Pass? <==> message.Some? && Occurs(message.value, mc.HeaderSegmentName + ".1>")
                                       && Occurs(message.value, mc.HeaderSegmentName + ".2>")
    ensures r == Fail(XmlElementMissing(1)) <==> message.Some? && !Occurs(message.value, mc.HeaderSegmentName + ".1>")
  {
    match message
    case None => Fail(NullMessage)
    case Some(m) =>
      if !Contains(m, mc.HeaderSegmentName + ".1>") then Fail(XmlElementMissing(1))
      else if !Contains(m, mc.HeaderSegmentName + ".2>") then Fail(XmlElementMissing(2))
      else Pass
  }

  /** `IsXmlEncoded`: true iff both element tags occur; never throws. */
  function IsXmlEncoded(message: Option<string>, mc: MessageConstants): (b: bool)
    ensures b <==> message.Some? && Occurs(message.value, mc.HeaderSegmentName + ".1>")
                                 && Occurs(message.value, mc.HeaderSegmentName + ".2>")
  {
    AssertXmlEncoded(message, mc).Pass?
  }

  /** With a single name size `n`, a non-empty segment fails exactly when, after
      stripping its leading whitespace, it is longer than `n` and its character
      at `n` is not the field delimiter; shorter segments pass. */
  lemma {:induction false} SingleNameSizeRule(token: string, fieldDelimiter: char, n: nat, isWhiteSpace: char -> bool)
    requires |token| > 0 && n < 0x7fff_ffff
    ensures var t := StripLeadingWhitespace(token, isWhiteSpace);
      SegmentCheck(token, fieldDelimiter, [n], isWhiteSpace).Pass? <==> (|t| <= n || t[n] == fieldDelimiter)
  {
  }

  /** With the single name size `int.MaxValue`, the length test wraps around,
      so every non-empty segment (a .NET string is at most `int.MaxValue`
      long) is indexed out of range and fails. */
  lemma {:induction false} MaxNameSizeRejectsEverySegment(token: string, fieldDelimiter: char, isWhiteSpace: char -> bool)
    requires 0 < |token| <= 0x7fff_ffff
    ensures SegmentCheck(token, fieldDelimiter, [0x7fff_ffff], isWhiteSpace) == Fail(IndexOutOfRange)
  {
    assert WrapInt32(0x7fff_ffff + 1) == -0x8000_0000;
  }

  /** A single negative name size is used as an index into every non-empty
      segment, which is out of range. */
  lemma {:induction false} NegativeNameSizeRejectsEverySegment(token: string, fieldDelimiter: char, n: int, isWhiteSpace: char -> bool)
    requires |token| > 0 && -0x8000_0000 <= n < 0
    ensures SegmentCheck(token, fieldDelimiter, [n], isWhiteSpace) == Fail(IndexOutOfRange)
  {
  }

  /** So a dialect whose only name size is `int.MaxValue` rejects even "MSH|". */
  lemma {:induction false} MaxNameSizeExample(mc: MessageConstants, isWhiteSpace: char -> bool)
    requires mc == NewMessageConstants("MSH", "{3}", "^~\\&", DelimiterIndex(3, 4, 5, 6, 7), Some([0x7fff_ffff]))
    requires !isWhiteSpace('M')
    ensures Er7Check(Some("MSH|"), mc, isWhiteSpace) == Fail(IndexOutOfRange)
  {
    var m := "MSH|";
    assert m[..3] == "MSH";
    SingleSegmentMessage(m, mc, isWhiteSpace);
    MaxNameSizeRejectsEverySegment(m, '|', isWhiteSpace);
    CheckSegmentsCons(m, [], '|', [0x7fff_ffff], isWhiteSpace);
    assert [m] + [] == [m];
  }

  /** With several name sizes, none negative, a non-empty segment passes exactly
      when one of the sizes is a position inside the stripped segment that holds
      the field delimiter. */
  lemma {:induction false} SeveralNameSizesRule(token: string, fieldDelimiter: char, sizes: seq<int>, isWhiteSpace: char -> bool)
    requires |token| > 0 && |sizes| != 1
    requires forall k :: 0 <= k < |sizes| ==> sizes[k] >= 0
    ensures var t := StripLeadingWhitespace(token, isWhiteSpace);
      SegmentCheck(token, fieldDelimiter, sizes, isWhiteSpace).Pass? <==>
        exists k :: 0 <= k < |sizes| && DelimiterAt(t, sizes[k], fieldDelimiter)
  {
    var t := StripLeadingWhitespace(token, isWhiteSpace);
    assert t == if isWhiteSpace(token[0]) then StripLeadingWhitespace(token, isWhiteSpace) else token;
    var r := AnySizeMatches(sizes, t, fieldDelimiter);
    assert r.Success? by {
      forall k | 0 <= k < |sizes| ensures !NegativeBeforeMatch(sizes, t, fieldDelimiter, k) { }
    }
    assert SegmentCheck(token, fieldDelimiter, sizes, isWhiteSpace).Pass? <==> r.value;
    if k :| 0 <= k < |sizes| && DelimiterAt(t, sizes[k], fieldDelimiter) {
      assert MatchAfterNonNegative(sizes, t, fieldDelimiter, k);
    }
  }

  /** An empty segment, such as the one after a trailing carriage return,
      always passes. */
  lemma {:induction false} EmptySegmentPasses(fieldDelimiter: char, sizes: seq<int>, isWhiteSpace: char -> bool)
    ensures SegmentCheck("", fieldDelimiter, sizes, isWhiteSpace) == Pass
  {
  }

  /** A message shorter than the header name plus the field delimiter is
      rejected as too short: under 4 characters for HL7, under 2 for the ASTM
      dialects. */
  lemma {:induction false} TooShortRejected(m: string, mc: MessageConstants, isWhiteSpace: char -> bool)
    requires |m| < |mc.HeaderSegmentName| + 1
    ensures Er7Check(Some(m), mc, isWhiteSpace) == Fail(MessageTooShort)
    ensures mc == HL7 ==> |m| < 4
    ensures mc == ASTM1394 || mc == ASTM1238 ==> |m| < 2
  {
  }

  /** A message long enough but not starting with the header name, compared
      exactly, is rejected. */
  lemma {:induction false} WrongHeaderRejected(m: string, mc: MessageConstants, isWhiteSpace: char -> bool)
    requires |m| >= |mc.HeaderSegmentName| + 1
    requires m[..|mc.HeaderSegmentName|] != mc.HeaderSegmentName
    ensures Er7Check(Some(m), mc, isWhiteSpace) == Fail(HeaderNameMismatch)
  {
  }

  /** A null message is neither ER7 nor XML. */
  lemma {:induction false} NullIsNeither(mc: MessageConstants, isWhiteSpace: char -> bool)
    ensures Er7Check(None, mc, isWhiteSpace) == Fail(NullMessage)
    ensures !IsXmlEncoded(None, mc)
  {
  }

  /** "NOTMSH" is not ER7 for HL7; "MSH|" is not ER7 for ASTM 1238. */
  lemma {:induction false} HeaderNameExamples(isWhiteSpace: char -> bool)
    ensures Er7Check(Some("NOTMSH"), HL7, isWhiteSpace) == Fail(HeaderNameMismatch)
    ensures Er7Check(Some("MSH|"), ASTM1238, isWhiteSpace) == Fail(HeaderNameMismatch)
  {
    assert "NOTMSH"[..3][0] == 'N';
    assert "MSH|"[..1][0] == 'M';
  }

  /** A message of two carriage-return terminated segments, the first holding
      the header, is checked segment by segment against the header's field
      delimiter; the empty piece after the last terminator is checked too. */
  lemma {:induction false} TwoSegmentMessage(header: string, segment: string, mc: MessageConstants, isWhiteSpace: char -> bool)
    requires |header| >= |mc.HeaderSegmentName| + 1 && StartsWith(header, mc.HeaderSegmentName)
    requires SegmentDelimiter !in header && SegmentDelimiter !in segment
    ensures Er7Check(Some(header + [SegmentDelimiter] + segment + [SegmentDelimiter]), mc, isWhiteSpace)
         == CheckSegments([header, segment, ""], header[|mc.HeaderSegmentName|], mc.HeaderNameSizes, isWhiteSpace)
  {
    var m := header + [SegmentDelimiter] + segment + [SegmentDelimiter];
    assert m == header + [SegmentDelimiter] + (segment + [SegmentDelimiter] + "");
    SplitAnyCons(header, SegmentDelimiter, segment + [SegmentDelimiter] + "", {SegmentDelimiter});
    SplitAnyCons(segment, SegmentDelimiter, "", {SegmentDelimiter});
    SplitAnyNone("", {SegmentDelimiter});
    assert m[..|mc.HeaderSegmentName|] == header[..|mc.HeaderSegmentName|];
    assert m[|mc.HeaderSegmentName|] == header[|mc.HeaderSegmentName|];
  }

  /** The first segment's outcome decides, unless it passes. */
  lemma {:induction false} CheckSegmentsCons(token: string, rest: seq<string>, fieldDelimiter: char, sizes: seq<int>, isWhiteSpace: char -> bool)
    ensures CheckSegments([token] + rest, fieldDelimiter, sizes, isWhiteSpace)
         == if SegmentCheck(token, fieldDelimiter, sizes, isWhiteSpace).Fail? then SegmentCheck(token, fieldDelimiter, sizes, isWhiteSpace)
            else CheckSegments(rest, fieldDelimiter, sizes, isWhiteSpace)
  {
    assert ([token] + rest)[0] == token && ([token] + rest)[1..] == rest;
  }

  /** With one name size, a segment holding the field delimiter at that size
      passes. */
  lemma {:induction false} SingleSizeMatches(token: string, fieldDelimiter: char, n: nat, isWhiteSpace: char -> bool)
    requires n < |token| && !isWhiteSpace(token[0]) && token[n] == fieldDelimiter
    ensures SegmentCheck(token, fieldDelimiter, [n], isWhiteSpace) == Pass
  {
  }

  /** With several sizes, a segment holding the field delimiter at the `k`th,
      with none negative before it, passes. */
  lemma {:induction false} SeveralSizesMatchAt(token: string, fieldDelimiter: char, sizes: seq<int>, k: nat, isWhiteSpace: char -> bool)
    requires |token| > 0 && !isWhiteSpace(token[0]) && |sizes| != 1
    requires MatchAfterNonNegative(sizes, token, fieldDelimiter, k)
    ensures SegmentCheck(token, fieldDelimiter, sizes, isWhiteSpace) == Pass
  {
  }

  /** With several non-negative sizes, a segment holding the field delimiter at
      none of them fails. */
  lemma {:induction false} SeveralSizesMatchNowhere(token: string, fieldDelimiter: char, sizes: seq<int>, isWhiteSpace: char -> bool)
    requires |token| > 0 && !isWhiteSpace(token[0]) && |sizes| != 1
    requires forall j :: 0 <= j < |sizes| ==> sizes[j] >= 0 && !DelimiterAt(token, sizes[j], fieldDelimiter)
    ensures SegmentCheck(token, fieldDelimiter, sizes, isWhiteSpace) == Fail(FieldDelimiterMismatch)
  {
    var r := AnySizeMatches(sizes, token, fieldDelimiter);
    assert r.Success? by {
      forall k | 0 <= k < |sizes| ensures !NegativeBeforeMatch(sizes, token, fieldDelimiter, k) { }
    }
    assert r != Success(true) by {
      forall k | 0 <= k < |sizes| ensures !MatchAfterNonNegative(sizes, token, fieldDelimiter, k) { }
    }
  }

  /** For ASTM 1238 the segment "OOBRR|1|" has its field delimiter at neither
      candidate position 1 nor 3, so the whole message is rejected. */
  lemma {:induction false} VariableNameLengthExample(header: string, segment: string, isWhiteSpace: char -> bool)
    requires header == "H|^~\\&||" && segment == "OOBRR|1|"
    requires !isWhiteSpace('H') && !isWhiteSpace('O')
    ensures Er7Check(Some(header + "\r" + segment + "\r"), ASTM1238, isWhiteSpace) == Fail(FieldDelimiterMismatch)
  {
    assert StartsWith(header, "H") && header[1] == '|' by { assert header[..1] == "H"; }
    assert SegmentDelimiter !in header && SegmentDelimiter !in segment;
    TwoSegmentMessage(header, segment, ASTM1238, isWhiteSpace);
    Astm1238HeaderPasses(header, isWhiteSpace);
    Astm1238SegmentFails(segment, isWhiteSpace);
    CheckSegmentsCons(header, [segment, ""], '|', [1, 3], isWhiteSpace);
    CheckSegmentsCons(segment, [""], '|', [1, 3], isWhiteSpace);
  }

  lemma {:induction false} Astm1238HeaderPasses(header: string, isWhiteSpace: char -> bool)
    requires header == "H|^~\\&||" && !isWhiteSpace('H')
    ensures SegmentCheck(header, '|', [1, 3], isWhiteSpace) == Pass
  {
    assert MatchAfterNonNegative([1, 3], header, '|', 0);
    SeveralSizesMatchAt(header, '|', [1, 3], 0, isWhiteSpace);
  }

  lemma {:induction false} Astm1238SegmentFails(segment: string, isWhiteSpace: char -> bool)
    requires segment == "OOBRR|1|" && !isWhiteSpace('O')
    ensures SegmentCheck(segment, '|', [1, 3], isWhiteSpace) == Fail(FieldDelimiterMismatch)
  {
    assert segment[0] == 'O' && segment[1] == 'O' && segment[3] == 'R';
    assert forall j :: 0 <= j < |[1, 3]| ==> [1, 3][j] >= 0 && !DelimiterAt(segment, [1, 3][j], '|') by {
      assert !DelimiterAt(segment, 1, '|') && !DelimiterAt(segment, 3, '|');
    }
    SeveralSizesMatchNowhere(segment, '|', [1, 3], isWhiteSpace);
  }

  /** The XML check accepts any message in which both tags occur. */
  lemma {:induction false} XmlAcceptsBothTags(m: string, mc: MessageConstants, i: int, j: int)
    requires OccursAt(m, mc.HeaderSegmentName + ".1>", i)
    requires OccursAt(m, mc.HeaderSegmentName + ".2>", j)
    ensures IsXmlEncoded(Some(m), mc)
  {
  }

  /** A message without a carriage return is one segment, checked against the
      header's field delimiter. */
  lemma {:induction false} SingleSegmentMessage(m: string, mc: MessageConstants, isWhiteSpace: char -> bool)
    requires |m| >= |mc.HeaderSegmentName| + 1 && StartsWith(m, mc.HeaderSegmentName)
    requires SegmentDelimiter !in m
    ensures Er7Check(Some(m), mc, isWhiteSpace)
         == CheckSegments([m], m[|mc.HeaderSegmentName|], mc.HeaderNameSizes, isWhiteSpace)
  {
    SplitAnyNone(m, {SegmentDelimiter});
  }

  /** ER7 and XML detection are not exclusive: "MSH|MSH.1>MSH.2>" passes both
      checks for HL7, since the XML check only looks for two substrings. */
  lemma {:induction false} DetectionNotExclusive(m: string, isWhiteSpace: char -> bool)
    requires m == "MSH|" + "MSH.1>" + "MSH.2>" && !isWhiteSpace('M')
    ensures Er7Check(Some(m), HL7, isWhiteSpace) == Pass
    ensures IsXmlEncoded(Some(m), HL7)
  {
    NotExclusiveEr7(m, isWhiteSpace);
    assert OccursAt(m, "MSH.1>", 4) by { assert m[4..4 + 6] == "MSH.1>"; }
    assert OccursAt(m, "MSH.2>", 10) by { assert m[10..10 + 6] == "MSH.2>"; }
    XmlAcceptsBothTags(m, HL7, 4, 10);
  }

  lemma {:induction false} NotExclusiveEr7(m: string, isWhiteSpace: char -> bool)
    requires m == "MSH|" + "MSH.1>" + "MSH.2>" && !isWhiteSpace('M')
    ensures Er7Check(Some(m), HL7, isWhiteSpace) == Pass
  {
    assert m[..3] == "MSH" && m[3] == '|' && m[0] == 'M';
    SingleSegmentMessage(m, HL7, isWhiteSpace);
    SingleSizeMatches(m, '|', 3, isWhiteSpace);
    CheckSegmentsCons(m, [], '|', [3], isWhiteSpace);
    assert [m] + [] == [m];
  }

  /** The ASTM 1394 sample header and terminator segments are ER7 for ASTM 1394. */
  lemma {:induction false} Astm1394SampleAccepted(header: string, terminator: string, isWhiteSpace: char -> bool)
    requires header == "H|" + "\\^&|||Strumento|||||||P|LIS02-A2|20171106" && terminator == "L|1|N"
    requires !isWhiteSpace('H') && !isWhiteSpace('L')
    ensures Er7Check(Some(header + "\r" + terminator + "\r"), ASTM1394, isWhiteSpace) == Pass
  {
    assert header[..1] == "H" && header[1] == '|' && header[0] == 'H';
    assert SegmentDelimiter !in header;
    TwoSegmentMessage(header, terminator, ASTM1394, isWhiteSpace);
    SingleSizeMatches(header, '|', 1, isWhiteSpace);
    SingleSizeMatches(terminator, '|', 1, isWhiteSpace);
    CheckSegmentsCons(header, [terminator, ""], '|', [1], isWhiteSpace);
    CheckSegmentsCons(terminator, [""], '|', [1], isWhiteSpace);
  }
}
