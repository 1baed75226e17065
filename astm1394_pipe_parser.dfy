/** The three hooks by which `Astm1394PipeParser` specialises the pipe parser
    for ASTM 1394 (LIS2-A2): encoding characters from header field 2 with a
    default written back, the fixed message structure "ORD", and no check of
    message type and event. The parser's dialect is always ASTM 1394. */
module Astm1394PipeParser {
  import opened Wrappers
  import opened Text
  import opened Dialects
  import opened SegmentSlots

  /** The dialect both constructors pass to the base parser. */
  const Constants: MessageConstants := ASTM1394

  /** Header field 2, repetition 0, component 1, subcomponent 1. */
  const EncodingCharactersLocation: Location := Location(2, 0, 1, 1)

  /** The structure every ASTM 1394 message is parsed as. */
  const MessageStructure: string := "ORD"

  /** `EncodingCharacters.FromField(field, fieldSeparator, constants)`: its
      internals are not part of this model, so the value just records its
      arguments. */
  datatype EncodingCharacters = FromField(encodingField: string, FieldSeparator: char, constants: MessageConstants)

  datatype ErrorCode = DataTypeError

  datatype HL7Exception = HL7Exception(code: ErrorCode)

  /** The validation step applied to the (possibly defaulted) encoding field. */
  function CheckEncodingCharacters(fieldSeparator: char, encodingField: string): (r: Result<EncodingCharacters, HL7Exception>)
    ensures r.Success? <==> |encodingField| == |Constants.EncodingCharacters|
    ensures r.Success? ==> r.value == FromField(encodingField, fieldSeparator, Constants)
    ensures r.Failure? ==> r.error.code == DataTypeError
  {
    if |encodingField| != |Constants.EncodingCharacters| then Failure(HL7Exception(DataTypeError))
    else Success(FromField(encodingField, fieldSeparator, Constants))
  }

  /** What `GetValidEncodingCharacters` returns for a header whose encoding
      field reads `present`: an absent field means the dialect default; a
      present one is used as it is, and only its length is checked. */
  function ValidEncodingCharacters(fieldSeparator: char, present: Option<string>): (r: Result<EncodingCharacters, HL7Exception>)
    ensures present.None? ==> r == Success(FromField("\\^&", fieldSeparator, ASTM1394))
    ensures present.Some? ==> (r.Success? <==> |present.value| == 3)
    ensures present.Some? && r.Success? ==> r.value.encodingField == present.value
    ensures r.Success? ==> r.value.FieldSeparator == fieldSeparator
    ensures r.Failure? ==> present.Some? && r.error == HL7Exception(DataTypeError)
  {
    CheckEncodingCharacters(fieldSeparator, present.GetOr(Constants.EncodingCharacters))
  }

  /** `GetValidEncodingCharacters`: reads header field 2; when it is null the
      default `\^&` is written into the header before the length check. */
  method GetValidEncodingCharacters(fieldSeparator: char, header: Segment)
    returns (r: Result<EncodingCharacters, HL7Exception>)
    modifies header
    ensures r == ValidEncodingCharacters(fieldSeparator, Get(old(header.slots), EncodingCharactersLocation))
    ensures Get(old(header.slots), EncodingCharactersLocation).None? ==>
      header.slots == Set(old(header.slots), EncodingCharactersLocation, Constants.EncodingCharacters)
    ensures Get(old(header.slots), EncodingCharactersLocation).Some? ==> header.slots == old(header.slots)
    ensures header.name == old(header.name)
  {
    var encCharString := Get(header.slots, EncodingCharactersLocation);
    var value: string;
    if encCharString.None? {
      value := Constants.EncodingCharacters;
      header.slots := Set(header.slots, EncodingCharactersLocation, value);
    } else {
      value := encCharString.value;
    }
    if |value| != |Constants.EncodingCharacters| {
      return Failure(HL7Exception(DataTypeError));
    }
    return Success(FromField(value, fieldSeparator, Constants));
  }

  /** After the call the header always holds an encoding field, and on success
      the result was built from exactly what the header now holds. */
  lemma {:induction false} HeaderHoldsWhatWasValidated(fieldSeparator: char, before: Slots)
    ensures var after := if Get(before, EncodingCharactersLocation).None?
                         then Set(before, EncodingCharactersLocation, Constants.EncodingCharacters) else before;
      && Get(after, EncodingCharactersLocation).Some?
      && var r := ValidEncodingCharacters(fieldSeparator, Get(before, EncodingCharactersLocation));
         r.Success? ==> r.value.encodingField == Get(after, EncodingCharactersLocation).value
  {
  }

  /** `GetStructure`: sets `explicitlyDefined` and returns "ORD" whatever the
      message; the first field of every segment is collected along the way
      and then dropped. */
  method GetStructure(message: string, encodingCharacters: EncodingCharacters, mc: MessageConstants, explicitlyDefinedIn: bool)
    returns (structure: string, explicitlyDefined: bool)
    ensures structure == MessageStructure && explicitlyDefined
  {
    var messageStructure := MessageStructure;
    var segmentNames := "";
    explicitlyDefined := true;
    var segments := SplitAny(message, {'\r'});
    for i := 0 to |segments| {
      var fields := SplitAny(segments[i], {encodingCharacters.FieldSeparator});
      if |fields| > 0 {
        segmentNames := segmentNames + fields[0];
      }
    }
    structure := messageStructure;
  }

  /** `EnsurePresenceOfMessageTypeAndEventName`: does nothing, so neither the
      message nor its header changes. */
  method EnsurePresenceOfMessageTypeAndEventName(source: Message, msh: Segment)
    ensures source.version == old(source.version)
    ensures source.header.name == old(source.header.name) && source.header.slots == old(source.header.slots)
    ensures msh.name == old(msh.name) && msh.slots == old(msh.slots)
  {
  }
}
