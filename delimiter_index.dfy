/** The positions, counted from the start of a message, at which the header
    segment carries each delimiter character of a dialect. */
module Delimiters {

  /** The five readonly indices of `DelimiterIndex`: a value once built, with one
      getter per field. The constructor checks nothing, so -1 ("this dialect has
      no such delimiter") and repeated values are kept as given. */
  datatype DelimiterIndex = DelimiterIndex(
    FieldSeparatorIndex: int,
    ComponentSeparatorIndex: int,
    RepetitionSeparatorIndex: int,
    EscapeCharacterIndex: int,
    SubcomponentSeparatorIndex: int)

  /** Each getter gives back the argument in its constructor position, for any
      five integers whatever their sign or repetition. */
  lemma {:induction false} GettersReturnArguments(field: int, component: int, repetition: int, escape: int, subcomponent: int)
    ensures var d := DelimiterIndex(field, component, repetition, escape, subcomponent);
      && d.FieldSeparatorIndex == field
      && d.ComponentSeparatorIndex == component
      && d.RepetitionSeparatorIndex == repetition
      && d.EscapeCharacterIndex == escape
      && d.SubcomponentSeparatorIndex == subcomponent
  {
  }

  /** The second and third arguments are the component and the repetition
      index, in that order: (1, 3, 2, 4, -1) has component 3 and repetition 2. */
  lemma {:induction false} ArgumentOrder()
    ensures DelimiterIndex(1, 3, 2, 4, -1).ComponentSeparatorIndex == 3
    ensures DelimiterIndex(1, 3, 2, 4, -1).RepetitionSeparatorIndex == 2
    ensures DelimiterIndex(1, 3, 2, 4, -1).SubcomponentSeparatorIndex == -1
  {
  }
}
