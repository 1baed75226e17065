/** The per-dialect configuration `MessageConstants` and the three built-in
    dialects: HL7 v2 ER7, ASTM 1394 (CLSI LIS2-A2) and ASTM 1238. */
module Dialects {
  import opened Wrappers
  import opened Delimiters

  /** The width of the field delimiter that follows the header segment name. */
  const FieldDelimiterLength: int := 1

  /** A dialect: every field is readonly and has a getter of the same name.
      `HeaderNameSizes` lists the lengths a segment name may have. */
  datatype MessageConstants = MessageConstants(
    HeaderSegmentName: string,
    SegmentNameRegexQuantifier: string,
    EncodingCharacters: string,
    DelimiterIndices: DelimiterIndex,
    HeaderNameSizes: seq<int>)

  /** The constructor: an omitted (null) list of header name sizes defaults to
      the single length of the header segment name. */
  function NewMessageConstants(
    headerSegmentName: string,
    segmentNameRegexQuantifier: string,
    encodingCharacters: string,
    delimiterIndices: DelimiterIndex,
    headerNameSizes: Option<seq<int>>): (r: MessageConstants)
    ensures r.HeaderSegmentName == headerSegmentName
    ensures r.SegmentNameRegexQuantifier == segmentNameRegexQuantifier
    ensures r.EncodingCharacters == encodingCharacters
    ensures r.DelimiterIndices == delimiterIndices
    ensures headerNameSizes.Some? ==> r.HeaderNameSizes == headerNameSizes.value
    ensures headerNameSizes.None? ==> |r.HeaderNameSizes| == 1 && r.HeaderNameSizes[0] == |headerSegmentName|
  {
    MessageConstants(headerSegmentName, segmentNameRegexQuantifier, encodingCharacters, delimiterIndices,
      match headerNameSizes
      case Some(sizes) => sizes
      case None => [|headerSegmentName|])
  }

  /** HL7 v2: `MSH|^~\&`. */
  const HL7: MessageConstants :=
    NewMessageConstants("MSH", "{3}", "^~\\&", DelimiterIndex(3, 4, 5, 6, 7), None)

  /** ASTM 1394 / LIS2-A2: `H|\^&`, with no subcomponent delimiter. */
  const ASTM1394: MessageConstants :=
    NewMessageConstants("H", "{1}", "\\^&", DelimiterIndex(1, 3, 2, 4, -1), None)

  /** ASTM 1238: `H|^~\&`, with segment names of one or three characters. */
  const ASTM1238: MessageConstants :=
    NewMessageConstants("H", "{1,3}", "^~\\&", DelimiterIndex(1, 2, 3, 4, 5), Some([1, 3]))

  /** The dialects the library ships. */
  predicate IsBuiltIn(mc: MessageConstants) {
    mc == HL7 || mc == ASTM1394 || mc == ASTM1238
  }

  /** The component, repetition, escape and subcomponent indices, in that order. */
  function EncodingIndices(d: DelimiterIndex): seq<int> {
    [d.ComponentSeparatorIndex, d.RepetitionSeparatorIndex, d.EscapeCharacterIndex, d.SubcomponentSeparatorIndex]
  }

  /** The delimiter indices that are present (not -1 or below). */
  function PresentIndices(d: DelimiterIndex): set<int> {
    set i | i in EncodingIndices(d) && i >= 0
  }

  /** The field separator sits right after the header name, and the present
      encoding-character indices are exactly the positions right after it,
      one per encoding character. */
  ghost predicate WellLaidOut(mc: MessageConstants) {
    var d := mc.DelimiterIndices;
    var fs := d.FieldSeparatorIndex;
    && fs == |mc.HeaderSegmentName|
    && (forall k :: k in PresentIndices(d) <==> fs + 1 <= k <= fs + |mc.EncodingCharacters|)
    && |PresentIndices(d)| == |mc.EncodingCharacters|
  }

  /** The start of a header segment: name, field separator, encoding characters. */
  function HeaderPrefix(mc: MessageConstants, fieldSeparator: char): (s: string)
    ensures |s| == |mc.HeaderSegmentName| + 1 + |mc.EncodingCharacters|
  {
    mc.HeaderSegmentName + [fieldSeparator] + mc.EncodingCharacters
  }

  /** The header name sizes defaulted from the header name: `[3]` for HL7,
      `[1]` for ASTM 1394; ASTM 1238 keeps its two sizes `[1, 3]` although its
      header name "H" is one character long. */
  lemma {:induction false} BuiltInNameSizes()
    ensures HL7.HeaderNameSizes == [3]
    ensures ASTM1394.HeaderNameSizes == [1]
    ensures ASTM1238.HeaderSegmentName == "H" && ASTM1238.HeaderNameSizes == [1, 3]
  {
  }

  /** Every built-in dialect is laid out as `WellLaidOut` says. */
  lemma {:induction false} BuiltInsWellLaidOut(mc: MessageConstants)
    requires IsBuiltIn(mc)
    ensures WellLaidOut(mc)
  {
    if mc == HL7 {
      LaidOutBy(mc, {4, 5, 6, 7});
    } else if mc == ASTM1394 {
      LaidOutBy(mc, {2, 3, 4});
    } else {
      LaidOutBy(mc, {2, 3, 4, 5});
    }
  }

  /** `WellLaidOut` from the set of present indices, computed once. */
  lemma {:induction false} LaidOutBy(mc: MessageConstants, present: set<int>)
    requires PresentIndices(mc.DelimiterIndices) == present
    requires mc.DelimiterIndices.FieldSeparatorIndex == |mc.HeaderSegmentName|
    requires forall k :: k in present <==> |mc.HeaderSegmentName| + 1 <= k <= |mc.HeaderSegmentName| + |mc.EncodingCharacters|
    requires |present| == |mc.EncodingCharacters|
    ensures WellLaidOut(mc)
  {
  }

  /** In a header that starts with the dialect's own prefix, each delimiter
      index points at the character that plays that role: for HL7 `^` is the
      component, `~` the repetition, `\` the escape and `&` the subcomponent
      delimiter; for ASTM 1394 `\` is the repetition, `^` the component and
      `&` the escape delimiter. */
  lemma {:induction false} BuiltInDelimiterRoles(fieldSeparator: char)
    ensures var p, d := HeaderPrefix(HL7, fieldSeparator), HL7.DelimiterIndices;
      p[d.FieldSeparatorIndex] == fieldSeparator && p[d.ComponentSeparatorIndex] == '^' &&
      p[d.RepetitionSeparatorIndex] == '~' && p[d.EscapeCharacterIndex] == '\\' &&
      p[d.SubcomponentSeparatorIndex] == '&'
    ensures var p, d := HeaderPrefix(ASTM1394, fieldSeparator), ASTM1394.DelimiterIndices;
      p[d.FieldSeparatorIndex] == fieldSeparator && p[d.ComponentSeparatorIndex] == '^' &&
      p[d.RepetitionSeparatorIndex] == '\\' && p[d.EscapeCharacterIndex] == '&' &&
      d.SubcomponentSeparatorIndex == -1
    ensures var p, d := HeaderPrefix(ASTM1238, fieldSeparator), ASTM1238.DelimiterIndices;
      p[d.FieldSeparatorIndex] == fieldSeparator && p[d.ComponentSeparatorIndex] == '^' &&
      p[d.RepetitionSeparatorIndex] == '~' && p[d.EscapeCharacterIndex] == '\\' &&
      p[d.SubcomponentSeparatorIndex] == '&'
  {
  }

  /** The HL7 dialect in full: header "MSH", four encoding characters, indices
      3 to 7; ASTM 1394: header "H", three encoding characters. */
  lemma {:induction false} BuiltInTables()
    ensures HL7.HeaderSegmentName == "MSH" && HL7.EncodingCharacters == "^~\\&"
    ensures |HL7.EncodingCharacters| == 4 && HL7.DelimiterIndices == DelimiterIndex(3, 4, 5, 6, 7)
    ensures ASTM1394.HeaderSegmentName == "H" && ASTM1394.EncodingCharacters == "\\^&"
    ensures |ASTM1394.EncodingCharacters| == 3 && ASTM1394.DelimiterIndices == DelimiterIndex(1, 3, 2, 4, -1)
  {
  }
}
