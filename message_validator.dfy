/** `MessageValidator`: runs every validation rule that applies to a message
    and folds their reported exceptions into one verdict. The rules and the
    validation context that selects them are external; a rule is a function
    from what it inspects to the exceptions it reports, in order. */
module Validation {
  import opened Wrappers
  import opened Dialects
  import opened SegmentSlots

  /** A problem one rule reports; its contents are the rule's business. */
  datatype ValidationException = ValidationException(description: string)

  /** The exception `Validate` throws: "Invalid message", wrapping the first
      reported problem. */
  datatype HL7Exception = InvalidMessage(cause: ValidationException)

  /** What a message rule sees of a parsed message. */
  datatype MessageView = MessageView(version: string, headerName: string, header: Slots)

  type Rule<-M> = M -> seq<ValidationException>

  /** `IValidationContext`: message rules by version, message type and trigger
      event; encoding rules by version and encoding name. */
  datatype ValidationContext = ValidationContext(
    messageRules: (string, Option<string>, Option<string>) -> seq<Rule<MessageView>>,
    encodingRules: (string, string) -> seq<Rule<string>>)

  /** Every exception reported, rule by rule and, within a rule, in the order
      the rule gives them. */
  function ReportedErrors<M>(rules: seq<Rule<M>>, subject: M): seq<ValidationException>
  {
    if |rules| == 0 then []
    else ReportedErrors(rules[..|rules| - 1], subject) + rules[|rules| - 1](subject)
  }

  /** No exception is reported exactly when every rule reports none. */
  lemma {:induction false} NoErrorsIffEveryRulePasses<M>(rules: seq<Rule<M>>, subject: M)
    ensures ReportedErrors(rules, subject) == [] <==> forall i :: 0 <= i < |rules| ==> rules[i](subject) == []
  {
    if |rules| > 0 {
      var front := rules[..|rules| - 1];
      NoErrorsIffEveryRulePasses(front, subject);
      assert forall i :: 0 <= i < |front| ==> front[i] == rules[i];
    }
  }

  /** The first reported exception is the first one of the first rule that
      reports any. */
  lemma {:induction false} FirstErrorComesFromFirstFailingRule<M>(rules: seq<Rule<M>>, subject: M)
    requires ReportedErrors(rules, subject) != []
    ensures exists i ::
      && 0 <= i < |rules| && rules[i](subject) != []
      && (forall j :: 0 <= j < i ==> rules[j](subject) == [])
      && ReportedErrors(rules, subject)[0] == rules[i](subject)[0]
  {
    var front := rules[..|rules| - 1];
    var last := |rules| - 1;
    assert forall j :: 0 <= j < |front| ==> front[j] == rules[j];
    if ReportedErrors(front, subject) != [] {
      FirstErrorComesFromFirstFailingRule(front, subject);
      var i :| 0 <= i < |front| && front[i](subject) != [] &&
        (forall j :: 0 <= j < i ==> front[j](subject) == []) &&
        ReportedErrors(front, subject)[0] == front[i](subject)[0];
      assert rules[i](subject) != [];
    } else {
      NoErrorsIffEveryRulePasses(front, subject);
      assert ReportedErrors(rules, subject) == rules[last](subject);
      assert rules[last](subject) != [];
    }
  }

  /** The verdict on a list of reported exceptions: with `failOnError` and at
      least one exception, the first one is thrown; otherwise the result is
      true exactly when there is none. */
  function Verdict(errors: seq<ValidationException>, failOnError: bool): (r: Result<bool, HL7Exception>)
    ensures r.Failure? <==> failOnError && errors != []
    ensures r.Failure? ==> r.error == InvalidMessage(errors[0])
    ensures r.Success? ==> (r.value <==> errors == [])
  {
    if failOnError && errors != [] then Failure(InvalidMessage(errors[0]))
    else Success(errors == [])
  }

  /** The loop both `Validate` overloads run: every rule is tested, even after
      an exception has been seen; `result` turns false at the first exception,
      and with `failOnError` the first exception is kept to be thrown. */
  method TestRules<M>(rules: seq<Rule<M>>, subject: M, failOnError: bool)
    returns (r: Result<bool, HL7Exception>)
    ensures r == Verdict(ReportedErrors(rules, subject), failOnError)
  {
    var toThrow: Option<ValidationException> := None;
    var result := true;
    for i := 0 to |rules|
      invariant result <==> ReportedErrors(rules[..i], subject) == []
      invariant toThrow == if failOnError && ReportedErrors(rules[..i], subject) != []
                           then Some(ReportedErrors(rules[..i], subject)[0]) else None
    {
      ghost var seen := ReportedErrors(rules[..i], subject);
      var ex := rules[i](subject);
      for j := 0 to |ex|
        invariant result <==> seen + ex[..j] == []
        invariant toThrow == if failOnError && seen + ex[..j] != [] then Some((seen + ex[..j])[0]) else None
      {
        result := false;
        if failOnError && toThrow == None {
          toThrow := Some(ex[j]);
        }
      }
      assert ex[..|ex|] == ex;
      assert rules[..i + 1][..i] == rules[..i];
    }
    assert rules[..|rules|] == rules;
    if toThrow.Some? {
      return Failure(InvalidMessage(toThrow.value));
    }
    return Success(result);
  }

  /** The message type and trigger event fields: components 1 and 2 of field 9
      of the header, found under the dialect's header segment name. */
  const MessageTypeLocation: Location := Location(9, 0, 1, 1)
  const TriggerEventLocation: Location := Location(9, 0, 2, 1)

  /** `Terser.Get("{H}-9-n")` on a message whose header segment is `header`:
      the value found under the dialect's header segment name, and null when
      the message's header carries another name. */
  function HeaderField(mc: MessageConstants, view: MessageView, at: Location): (r: Option<string>)
    ensures view.headerName == mc.HeaderSegmentName ==> r == Get(view.header, at)
    ensures view.headerName != mc.HeaderSegmentName ==> r.None?
  {
    if view.headerName == mc.HeaderSegmentName then Get(view.header, at) else None
  }

  /** The encoding name rules are looked up by. */
  function EncodingName(isXml: bool): (name: string)
    ensures isXml ==> name == "XML"
    ensures !isXml ==> name == "ER7"
  {
    if isXml then "XML" else "ER7"
  }

  /** The rules that apply to a parsed message. */
  function MessageRulesFor(context: ValidationContext, mc: MessageConstants, view: MessageView): seq<Rule<MessageView>> {
    context.messageRules(view.version, HeaderField(mc, view, MessageTypeLocation), HeaderField(mc, view, TriggerEventLocation))
  }

  class MessageValidator {
    const context: ValidationContext
    const failOnError: bool
    const messageConstants: MessageConstants

    constructor (context: ValidationContext, failOnError: bool, messageConstants: MessageConstants)
      ensures this.context == context && this.failOnError == failOnError
      ensures this.messageConstants == messageConstants
    {
      this.context := context;
      this.failOnError := failOnError;
      this.messageConstants := messageConstants;
    }

    /** `Validate(IMessage)`: the message rules chosen by version, message type
      and trigger event, all tested against the message. */
    method Validate(message: Message) returns (r: Result<bool, HL7Exception>)
      ensures var view := MessageView(message.version, message.header.name, message.header.slots);
        r == Verdict(ReportedErrors(MessageRulesFor(context, messageConstants, view), view), failOnError)
    {
      var view := MessageView(message.version, message.header.name, message.header.slots);
      var rules := context.messageRules(message.version,
        HeaderField(messageConstants, view, MessageTypeLocation),
        HeaderField(messageConstants, view, TriggerEventLocation));
      r := TestRules(rules, view, failOnError);
    }

    /** `Validate(string, isXML, version)`: the encoding rules for the version
      and "XML" or "ER7", all tested against the text. */
    method ValidateEncoded(message: string, isXml: bool, version: string) returns (r: Result<bool, HL7Exception>)
      ensures r == Verdict(ReportedErrors(context.encodingRules(version, EncodingName(isXml)), message), failOnError)
      ensures !failOnError ==> r.Success?
      ensures r == Success(true) <==>
        forall i :: 0 <= i < |context.encodingRules(version, EncodingName(isXml))| ==>
          context.encodingRules(version, EncodingName(isXml))[i](message) == []
    {
      var rules := context.encodingRules(version, if isXml then "XML" else "ER7");
      r := TestRules(rules, message, failOnError);
      NoErrorsIffEveryRulePasses(rules, message);
    }
  }
}
