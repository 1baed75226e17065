# nHapi dialects, encoding detection, validation and resource tables in Dafny

This project models the small, deterministic core of the nHapi HL7 library and proves properties of it:

- **Dialect configuration.** `MessageConstants` and `DelimiterIndex` hold readonly fields, modelled as datatypes. `HL7`, `ASTM1394` and `ASTM1238` are the three built-in dialects: HL7 v2 ER7 with header `MSH|^~\&`, ASTM 1394 / CLSI LIS2-A2 with `H|\^&`, and ASTM 1238 with `H|^~\&` and segment names of one or three characters.
- **Encoding detection.** `EncodingDetector` decides, for one dialect, whether a message looks ER7 (pipe delimited) or XML encoded:
  - `AssertEr7Encoded` is a loop over the carriage-return separated segments. It returns the kind of exception it would throw.
  - `IsEr7Encoded` and `IsXmlEncoded` turn that failure into `false`.
- **ASTM 1394 parser hooks.** The class `Astm1394PipeParser` overrides three methods of the pipe parser:
  - `GetValidEncodingCharacters` reads header field 2. When the field is absent it writes the default `\^&` back into the header, then checks the length.
  - `GetStructure` always answers "ORD".
  - `EnsurePresenceOfMessageTypeAndEventName` does nothing.
- **Validation aggregation.** Both `MessageValidator.Validate` overloads run every applicable rule. The result is true exactly when no rule reports an exception. With `failOnError`, the first exception reported (ordered by rule, then by position within a rule) is thrown, wrapped in an `HL7Exception`.
- **Resource tables.** `MapResourceLoader.Load` and `LoadResourceFromPackage` read `key<sep>value` lines and skip empty lines and `#` lines. The entries go into a table shared by all packages and keyed by version. `StructurePatternsLoader` makes two changes: it splits on tab only, and it builds its resource name from the package name.

Modelling decisions:

- **Objects whose fields change in place are classes.**
  - A header segment is a class (`SegmentSlots.Segment`) whose values are a map from a (field, repetition, component, subcomponent) position to a string. `Terser.Get` returns `None` for a null value, and `Terser.Set` writes into that map.
  - The version-keyed `Hashtable` is the class `ResourceLoading.VersionTable`.
  - `MapResourceLoader` is a class whose methods modify that table.
- **Exceptions and null.**
  - Exceptions become `Result`/`Outcome` values carrying the kind of error.
  - `null` becomes `Option` where the modelled code tests for it or where a null input decides the outcome: the message given to the encoding detector, a value read from a header position, and the optional `headerNameSizes` argument of the `MessageConstants` constructor. Every other input is non-null in the model (see "## Left out").
  - A negative header-name size used as a string index becomes the error kind `IndexOutOfRange`.
- **32-bit arithmetic.** The single-size length test in `AssertEr7Encoded` adds 1 to a C# `int`. The model wraps that sum into the signed 32-bit range (`EncodingDetector.WrapInt32`), so a name size of `int.MaxValue` makes every non-empty segment fail with `IndexOutOfRange`, as the source does.
- **Characters.** A model string is a sequence of Unicode scalar values; a .NET string is a sequence of UTF-16 code units. The two agree on every text inside the Basic Multilingual Plane, which includes the ASCII delimiters, header names, tags and separators the core compares against. Lengths and positions differ on text outside it, as listed under "## Left out".
- **Inputs from outside the modelled code are parameters.** These are `char.IsWhiteSpace`, the validation context with its rules, and the installed assemblies and their resources. The assemblies are a map from assembly name to resource name to lines.
- **`EncodingDetector` refers to members that `MessageConstants` does not show.**
  - `EncodingDetector.cs` uses `MessageConstants.FIELDDELIMITERLENGTH` and `SegmentNameSizes`. `MessageConstants.cs` declares neither of them.
  - The model reads `SegmentNameSizes` as `HeaderNameSizes` and takes the field delimiter length to be 1. That length matches the documented "less than 4 characters" bound for `MSH`.
- **`MessageConstants.Default` is not part of this model.** The validator takes its dialect as a constructor argument.

Where the code differs from what its documentation suggests, or where its behaviour is easy to misread, the model follows the code:

- **ER7 and XML detection are not exclusive.** `"MSH|MSH.1>MSH.2>"` passes both checks for HL7, which `EncodingDetector.DetectionNotExclusive` proves.
- **Empty segments are kept by the split and skipped by the loop.** `Split` keeps the empty piece after a trailing carriage return, and the length guard of the segment loop skips it, so it always passes (`EncodingDetector.EmptySegmentPasses`).
- **An ASTM 1238 message has no fixed header-name size.** Its header name "H" is one character long, but a segment's field delimiter may sit at position 1 or 3.

## Model

| member | source | states |
|---|---|---|
| Dialects.NewMessageConstants | src/NHapi.Base/MessageConstants.cs:28-45 | every field keeps its constructor argument; an omitted `headerNameSizes` becomes exactly a one-element list holding the length of the header segment name |
| Dialects.BuiltInNameSizes | src/NHapi.Base/MessageConstants.cs:10-12 | the defaulted sizes are `[3]` for HL7 and `[1]` for ASTM 1394; ASTM 1238 has header "H" but sizes `[1, 3]` |
| Dialects.BuiltInTables | src/NHapi.Base/MessageConstants.cs:10-11 | HL7 is "MSH" with `^~\&` (4 characters) and indices (3,4,5,6,7); ASTM 1394 is "H" with `\^&` (3 characters) and indices (1,3,2,4,-1) |
| Dialects.BuiltInsWellLaidOut | src/NHapi.Base/MessageConstants.cs:10-12 | for every built-in the field separator index is the header name length, and the present encoding indices are exactly the positions right after it, one per encoding character |
| Dialects.BuiltInDelimiterRoles | src/NHapi.Base/MessageConstants.cs:10-12 | in a header that starts with the dialect's prefix, each index points at the character that plays its role (`^` component, `~` or `\` repetition, and so on); ASTM 1394 has no subcomponent index |
| Delimiters.GettersReturnArguments | src/NHapi.Base/DelimiterIndex.cs:22-59 | each getter returns the argument in its constructor position, for any five integers, including -1 and repeated values |
| Delimiters.ArgumentOrder | src/NHapi.Base/DelimiterIndex.cs:22-27 | `DelimiterIndex(1,3,2,4,-1)` has component 3, repetition 2 and subcomponent -1 |
| Text.SplitAny | src/NHapi.Base/Parser/EncodingDetector.cs:80 | `String.Split`: there is always at least one piece; the first piece is the text before the first separator; there is a single piece iff there is no separator |
| Text.FirstSeparatorSpec | src/NHapi.Base/Parser/EncodingDetector.cs:80 | no character before the split point is a separator, and the character at it, if any, is one |
| Text.SplitJoin | src/NHapi.Base/Parser/EncodingDetector.cs:80 | splitting on one character loses nothing: joining the pieces with it gives the message back |
| Text.SplitPiecesHaveNoSeparator | src/NHapi.Base/MapResourceLoader.cs:65 | no piece of a split contains a separator character |
| Text.SinglePieceIffNoSeparator | src/NHapi.Base/MapResourceLoader.cs:65-66 | a line splits into a single piece exactly when it contains no separator |
| Text.FirstTwoPieces | src/NHapi.Base/MapResourceLoader.cs:65-66 | with two or more pieces, the first runs up to the first separator and the second from there to the next separator or the end |
| Text.Contains | src/NHapi.Base/Parser/EncodingDetector.cs:137 | `Contains` is true iff the substring occurs at some position |
| Text.StripLeadingWhitespace | src/NHapi.Base/Parser/EncodingDetector.cs:87-90 | the result is a suffix of the input; everything dropped is whitespace, and the result does not start with whitespace |
| EncodingDetector.AnySizeMatches | src/NHapi.Base/Parser/EncodingDetector.cs:102 | `Any` over the name sizes fails iff a negative size is reached before a match, and is true iff some size holds the field delimiter with no negative size before it |
| EncodingDetector.CheckSegments | src/NHapi.Base/Parser/EncodingDetector.cs:82-112 | all segments pass iff each one passes; a failure is the outcome of the first failing segment |
| EncodingDetector.CheckSegmentsCons | src/NHapi.Base/Parser/EncodingDetector.cs:82-112 | the first segment's failure decides; a passing first segment hands over to the rest |
| EncodingDetector.SegmentCheck | src/NHapi.Base/Parser/EncodingDetector.cs:85-110 | the check of one segment: an empty segment passes, and a failure is only ever an index out of range or a field-delimiter mismatch |
| EncodingDetector.Er7Check | src/NHapi.Base/Parser/EncodingDetector.cs:64-113 | the whole check: null, too short and wrong header name are reported exactly on those messages, in that order |
| EncodingDetector.Er7CheckPassesIffIsEr7 | src/NHapi.Base/Parser/EncodingDetector.cs:64-113 | the check passes exactly on non-null messages long enough, starting with the header name, whose every segment passes against the character after the header name |
| EncodingDetector.AssertEr7Encoded | src/NHapi.Base/Parser/EncodingDetector.cs:64-113 | the loop returns the outcome of the whole check, and passes iff the message is ER7 as stated above |
| EncodingDetector.IsEr7Encoded | src/NHapi.Base/Parser/EncodingDetector.cs:164-175 | true iff the assertion would complete, for every input including null; never fails |
| EncodingDetector.AssertXmlEncoded | src/NHapi.Base/Parser/EncodingDetector.cs:135-146 | passes iff both `{H}.1>` and `{H}.2>` occur; fails on the first tag when it is missing; a null message fails |
| EncodingDetector.IsXmlEncoded | src/NHapi.Base/Parser/EncodingDetector.cs:207-218 | true iff both tags occur in a non-null message |
| EncodingDetector.TooShortRejected | src/NHapi.Base/Parser/EncodingDetector.cs:67-70 | a message shorter than the header name plus one is rejected as too short: under 4 characters for HL7, under 2 for the ASTM dialects |
| EncodingDetector.WrongHeaderRejected | src/NHapi.Base/Parser/EncodingDetector.cs:73-76 | a long enough message that does not start with the header name, compared exactly, is rejected |
| EncodingDetector.HeaderNameExamples | tests/NHapi.Base.NUnit/PreParser/PreParserTests.cs:70-101 | "NOTMSH" is rejected for HL7 (wrong header), and "MSH" followed by a pipe is rejected for ASTM 1238, whose header name is "H" |
| EncodingDetector.NullIsNeither | src/NHapi.Base/Parser/EncodingDetector.cs:164-218 | a null message is neither ER7 nor XML |
| EncodingDetector.EmptySegmentPasses | src/NHapi.Base/Parser/EncodingDetector.cs:85 | an empty segment always passes |
| EncodingDetector.SingleNameSizeRule | src/NHapi.Base/Parser/EncodingDetector.cs:91-98 | with one non-negative size n below `int.MaxValue`, a non-empty segment passes iff, once stripped, it is at most n long or holds the field delimiter at n |
| EncodingDetector.WrapInt32 | src/NHapi.Base/Parser/EncodingDetector.cs:94 | the C# `int` sum wrapped into the signed 32-bit range: unchanged inside the range, and congruent modulo 2^32 outside it |
| EncodingDetector.MaxNameSizeRejectsEverySegment | src/NHapi.Base/Parser/EncodingDetector.cs:94 | with the single size `int.MaxValue`, `+ 1` wraps to `int.MinValue` and every non-empty segment fails with an index out of range |
| EncodingDetector.NegativeNameSizeRejectsEverySegment | src/NHapi.Base/Parser/EncodingDetector.cs:94 | with a single negative size, every non-empty segment fails with an index out of range |
| EncodingDetector.MaxNameSizeExample | src/NHapi.Base/Parser/EncodingDetector.cs:91-98 | an HL7-like dialect whose only name size is `int.MaxValue` rejects even the message "MSH" followed by a pipe |
| EncodingDetector.SingleSizeMatches | src/NHapi.Base/Parser/EncodingDetector.cs:91-98 | with one size, a segment holding the field delimiter at that size passes |
| EncodingDetector.SeveralNameSizesRule | src/NHapi.Base/Parser/EncodingDetector.cs:100-109 | with several non-negative sizes, a non-empty segment passes iff one size is a position inside the stripped segment holding the field delimiter |
| EncodingDetector.SeveralSizesMatchAt | src/NHapi.Base/Parser/EncodingDetector.cs:100-109 | with several sizes, a match with no negative size before it passes |
| EncodingDetector.SeveralSizesMatchNowhere | src/NHapi.Base/Parser/EncodingDetector.cs:100-109 | with several non-negative sizes and no match, the segment fails with a field-delimiter mismatch |
| EncodingDetector.TwoSegmentMessage | src/NHapi.Base/Parser/EncodingDetector.cs:79-82 | a message of two terminated segments is checked as the header, the segment and the empty trailing piece, against the header's field delimiter |
| EncodingDetector.SingleSegmentMessage | src/NHapi.Base/Parser/EncodingDetector.cs:79-82 | a message without a carriage return is one segment, checked against the character after the header name |
| EncodingDetector.VariableNameLengthExample | tests/NHapi.Base.NUnit/PreParser/PreParserTests.cs:104 | the ASTM 1238 test message whose second segment is "OOBRR", a pipe and "1" is rejected: that segment has no field delimiter at position 1 or 3 |
| EncodingDetector.Astm1394SampleAccepted | tests/NHapi.NUnit/Parser/Astm1394Tests.cs:21-22 | the sample ASTM 1394 header and terminator segments are ER7 for ASTM 1394 |
| EncodingDetector.XmlAcceptsBothTags | src/NHapi.Base/Parser/EncodingDetector.cs:135-146 | any message in which both tags occur is XML |
| EncodingDetector.DetectionNotExclusive | src/NHapi.Base/Parser/EncodingDetector.cs:64-146 | the message "MSH", a pipe, "MSH.1>MSH.2>" is both ER7 and XML for HL7 |
| Astm1394PipeParser.CheckEncodingCharacters | src/NHapi.Base/Parser/Astm1394PipeParser.cs:39-45 | a value succeeds iff its length is the default's; success is built from exactly that value and the field separator; failure is a data type error |
| Astm1394PipeParser.ValidEncodingCharacters | src/NHapi.Base/Parser/Astm1394PipeParser.cs:31-45 | an absent field yields the default `\^&`; a present one succeeds iff it has 3 characters and is used as it is, never replaced by the default |
| Astm1394PipeParser.GetValidEncodingCharacters | src/NHapi.Base/Parser/Astm1394PipeParser.cs:29-46 | the result is the validation of the field as it was read; an absent field is set to the default in the header; a present one leaves the header unchanged |
| Astm1394PipeParser.HeaderHoldsWhatWasValidated | src/NHapi.Base/Parser/Astm1394PipeParser.cs:31-45 | afterwards the header holds an encoding field, and a success was built from exactly that value |
| Astm1394PipeParser.GetStructure | src/NHapi.Base/Parser/Astm1394PipeParser.cs:49-64 | returns "ORD" and sets `explicitlyDefined`, whatever the message |
| Astm1394PipeParser.EnsurePresenceOfMessageTypeAndEventName | src/NHapi.Base/Parser/Astm1394PipeParser.cs:66-69 | changes neither the message nor the header |
| SegmentSlots.Get | src/NHapi.Base/Parser/Astm1394PipeParser.cs:31 | reads `Some(value)` exactly when the position holds one, otherwise `None` for null |
| SegmentSlots.Set | src/NHapi.Base/Parser/Astm1394PipeParser.cs:36 | the position written then reads the new value; every other position reads as before |
| Validation.NoErrorsIffEveryRulePasses | src/NHapi.Base/Validation/MessageValidator.cs:96-117 | no exception is reported exactly when every rule reports none |
| Validation.FirstErrorComesFromFirstFailingRule | src/NHapi.Base/Validation/MessageValidator.cs:105-108 | the first reported exception is the first one of the first rule that reports any |
| Validation.Verdict | src/NHapi.Base/Validation/MessageValidator.cs:112-117 | throws iff `failOnError` is set and an exception was reported, and then wraps the first one; otherwise returns true iff none was reported |
| Validation.TestRules | src/NHapi.Base/Validation/MessageValidator.cs:96-117 | both nested loops give the verdict on all exceptions of all rules, in order, and run every rule even after an exception |
| Validation.HeaderField | src/NHapi.Base/Validation/MessageValidator.cs:94 | under the dialect's header segment name the field is exactly the header's value at the position; under any other name it reads as null |
| Validation.EncodingName | src/NHapi.Base/Validation/MessageValidator.cs:141 | rules are looked up under "XML" when `isXML` is set and under "ER7" otherwise |
| Validation.MessageValidator.constructor | src/NHapi.Base/Validation/MessageValidator.cs:69-74 | keeps the context, the `failOnError` flag and the dialect |
| Validation.MessageValidator.Validate | src/NHapi.Base/Validation/MessageValidator.cs:91-118 | the verdict on the rules chosen by the message version and header field 9 components 1 and 2, all tested against the message |
| Validation.MessageValidator.ValidateEncoded | src/NHapi.Base/Validation/MessageValidator.cs:139-164 | the verdict on the encoding rules for the version and encoding; never throws without `failOnError`; true iff every rule reports nothing |
| StructurePatternsLoader.GetResourceName | src/NHapi.Base/StructurePatternsLoader.cs:13-22 | the name ends with `StructureMapping.StructurePatternMap.properties`, after the package name with a '.' appended only when it does not end in one |
| StructurePatternsLoader.TrailingDotIrrelevant | src/NHapi.Base/StructurePatternsLoader.cs:16-19 | package names "X" and "X." give the same resource name |
| StructurePatternsLoader.ResourceNameDeterminesPackage | src/NHapi.Base/StructurePatternsLoader.cs:15-21 | two package names without a trailing '.' giving the same resource name are equal |
| ResourceLoading.RemoveTrailingDot | src/NHapi.Base/MapResourceLoader.cs:83-94 | a name ending in '.' loses exactly that one dot; any other name, "" included, is unchanged |
| ResourceLoading.RemoveTrailingDotExamples | src/NHapi.Base/MapResourceLoader.cs:83-94 | "X.." becomes "X.", "" stays "", "X" stays "X" |
| ResourceLoading.ResourceNameFromAssemblyName | src/NHapi.Base/StructurePatternsLoader.cs:15-21 | the structure-pattern resource name is the assembly name, a '.' and the suffix, with or without a trailing dot in the package name |
| ResourceLoading.ParseLine | src/NHapi.Base/MapResourceLoader.cs:63-66 | empty and '#' lines add nothing; any other line fails iff it has no separator, and otherwise yields the text before the first separator as key and the text up to the next separator as value |
| ResourceLoading.ParseLines | src/NHapi.Base/MapResourceLoader.cs:60-70 | reading no lines gives no entries; a successful read yields at most one entry per line |
| ResourceLoading.ParseLinesInOrder | src/NHapi.Base/MapResourceLoader.cs:60-70 | reading succeeds iff every line parses, and then gives one entry per data line, in line order |
| ResourceLoading.ParseLinesFailurePersists | src/NHapi.Base/MapResourceLoader.cs:60-70 | once a prefix of the lines fails, reading all of them fails |
| ResourceLoading.ResourceCollection | src/NHapi.Base/MapResourceLoader.cs:54-55 | a missing resource yields an empty collection |
| ResourceLoading.SeparatorSets | src/NHapi.Base/MapResourceLoader.cs:16 | the default separators are space and tab; the structure-pattern loader's are tab alone |
| ResourceLoading.TabOnlySeparatorKeepsSpaces | src/NHapi.Base/StructurePatternsLoader.cs:9 | with tab only, "A B\tC D" gives the entry ("A B", "C D") |
| ResourceLoading.DefaultSeparatorsCutAtSpace | src/NHapi.Base/MapResourceLoader.cs:16 | with the default separators the same line gives ("A", "B") |
| ResourceLoading.MapResourceLoader.constructor | src/NHapi.Base/MapResourceLoader.cs:16-20 | keeps the table and the separator |
| ResourceLoading.MapResourceLoader.StructurePatterns | src/NHapi.Base/StructurePatternsLoader.cs:8-11 | keeps the table given and uses the tab-only separator |
| ResourceLoading.MapResourceLoader.GetResourceName | src/NHapi.Base/MapResourceLoader.cs:78-81 | the base loader uses the package's event-mapping resource name; the structure-pattern loader uses the assembly name, a '.' and the structure-pattern suffix |
| ResourceLoading.MapResourceLoader.LoadResourceFromPackage | src/NHapi.Base/MapResourceLoader.cs:50-76 | on success the package's version is set to exactly the collection read, replacing any earlier one; when a line fails the table is unchanged |
| ResourceLoading.MapResourceLoader.LoadAll | src/NHapi.Base/MapResourceLoader.cs:22-43 | loading no packages leaves the table as it was and passes; loading never drops a version already in the table |
| ResourceLoading.MapResourceLoader.Load | src/NHapi.Base/MapResourceLoader.cs:22-43 | the table and outcome are those of loading the packages in order, skipping packages whose assembly is missing |
| ResourceLoading.MapResourceLoader.LoadAllKeepsOtherVersions | src/NHapi.Base/MapResourceLoader.cs:22-43 | loading leaves every version that no loaded package has untouched |
| ResourceLoading.MapResourceLoader.LoadAllStopsAtFailure | src/NHapi.Base/MapResourceLoader.cs:22-43 | after a failing package, no later package is loaded |

## Left out

- The overloads without a dialect argument (`EncodingDetector.cs:48-51`, `122-125`, `153-156`, `189-192`) only pass `MessageConstants.HL7`, so they are not modelled separately.
- The obsolete lowercase `validate` overloads only forward to `Validate`.
- The two-argument `MessageValidator` constructor uses `MessageConstants.Default`, which is not part of this model.
- `IMessageValidator` and `NullValidator` are an interface and a validator that always says yes.
- Logging is output only.
- The validation context's rule lookup and the rules themselves are external. They are parameters: functions from their inputs to rules, and from a subject to the exceptions it reports.
- `Terser` path lookup, `EncodingCharacters.FromField` and the rest of `PipeParser` are not part of this model. `FromField` is an uninterpreted constructor, and `Terser.Get`/`Set` are reads and writes of one position.
- `char.IsWhiteSpace` and its Unicode table are a parameter.
- Exception message texts are not modelled, only the kinds of error.
- `Astm1394PipeParser.GetStructure`: the segment names it collects are dropped, as in the source. No pattern-based structure resolution exists.
- `Assembly.Load`, `GetManifestResourceStream`, `StreamReader` and `GetPackages`/`PackageManager` are reflection and I/O.
  - The installed packages are a sequence argument.
  - The assemblies are a map to the lines of each resource.
  - Only a missing assembly (`FileNotFoundException`) is skipped. Other load failures are not modelled.
- `NameValueCollection` is an ordered sequence of added entries. Its grouping of repeated keys, which ignores case, is not modelled.
- `ResourceLoading.MapResourceLoader.constructor` requires a non-empty separator. With an empty one, .NET's `Split` splits on whitespace instead, and that fallback is not modelled.
- `StructurePatternsLoader.EndsWithDot` compares ordinally, while `EndsWith(".")` in the source is culture-sensitive. For a single '.' the model takes them to agree.
- `Hl7Package` fields are never null in the model.
- Null inputs that the source dereferences are not modelled and are non-null types here. These are the `message` and `encodingCharacters` of `GetStructure` (`Astm1394PipeParser.cs:54,57`) and the message given to `Validate` (`MessageValidator.cs:93-94`). The source throws `NullReferenceException` on them.
- Validation.TestRules: a rule's exceptions are a sequence of non-null values. In the source a null entry sets `result` to false but is never kept in `toThrow` (`MessageValidator.cs:105-108`). So with `failOnError` the source throws the first non-null exception, and with only null entries it returns false instead of throwing. The model does neither.
- Validation.HeaderField: answering null when the message's header segment carries a name other than the dialect's is this model's reading of `Terser`'s segment lookup. `Terser` is not part of this model.
- A .NET string is at most `int.MaxValue` characters long; Dafny strings are unbounded, so `EncodingDetector.MaxNameSizeRejectsEverySegment` states that bound as a precondition.
- `EventMapper`, `StructurePatternsCollection` and the generated LIS02A2 schema classes (`H`, `L`, `ORD`, `ST`, `DT`) hold no logic of their own.
- EncodingDetector.AssertEr7Encoded: a Dafny `string` is a sequence of Unicode scalar values, while a .NET string is a sequence of UTF-16 code units. Lengths and positions therefore differ on text outside the Basic Multilingual Plane: a segment holding such a character is one position shorter here than in the source, so the length test, the character compared with the field delimiter and the index-out-of-range failure can come out differently. A lone surrogate cannot be written as a model string at all.
- EncodingDetector.IsEr7Encoded: inherits the same difference from `AssertEr7Encoded`: strings here are Unicode scalar values, not UTF-16 code units, so a message with text outside the Basic Multilingual Plane can be judged differently, and lone surrogates are not representable.
- Astm1394PipeParser.CheckEncodingCharacters: the length test counts Unicode scalar values here and UTF-16 code units in the source. A field of three characters one of which lies outside the Basic Multilingual Plane is four code units long and rejected by the source but accepted here, and a two-character field holding one such character is accepted by the source but rejected here.
- Astm1394PipeParser.ValidEncodingCharacters: inherits the length difference of `CheckEncodingCharacters` for fields with text outside the Basic Multilingual Plane; lone surrogates are not representable.
- Astm1394PipeParser.GetValidEncodingCharacters: inherits the same length difference through `ValidEncodingCharacters`.
- Dialects.NewMessageConstants: the header-name size list is a value (`seq<int>`) here. In the source it is an `int[]`: the constructor keeps the caller's array (`MessageConstants.cs:18,40`) and the `HeaderNameSizes` getter hands it out (`MessageConstants.cs:82`). A write through either reference would change the sizes every later `AssertEr7Encoded` reads, for that dialect and for the shared built-ins. The model does not capture that aliasing or mutation.
- Shared static instances: the built-in dialects are Dafny constants. Apart from the size array above, their fields are readonly, so "always the same instance" is modelled as value equality.
