/** The part of a parsed segment that the modelled code reads and writes
    through `Terser.Get(segment, field, repetition, component, subcomponent)`
    and `Terser.Set`: one optional string per position. */
module SegmentSlots {
  import opened Wrappers

  /** A position inside a segment: field (1-based), repetition (0-based),
      component and subcomponent (1-based). */
  datatype Location = Location(field: int, repetition: int, component: int, subcomponent: int)

  /** The values a segment holds, by position; a missing key reads as null. */
  type Slots = map<Location, string>

  /** `Terser.Get`: the value at a position, or `None` for null. */
  function Get(slots: Slots, at: Location): (r: Option<string>)
    ensures r.Some? <==> at in slots
    ensures r.Some? ==> r.value == slots[at]
  {
    if at in slots then Some(slots[at]) else None
  }

  /** `Terser.Set`: write a value at a position. */
  function Set(slots: Slots, at: Location, value: string): (r: Slots)
    ensures Get(r, at) == Some(value)
    ensures forall other :: other != at ==> Get(r, other) == Get(slots, other)
  {
    slots[at := value]
  }

  /** A segment object: its name and the values it holds, updated in place. */
  class Segment {
    var name: string
    var slots: Slots

    constructor (name: string, slots: Slots)
      ensures this.name == name && this.slots == slots
    {
      this.name := name;
      this.slots := slots;
    }
  }

  /** A parsed message object: its version and its header segment. */
  class Message {
    var version: string
    const header: Segment

    constructor (version: string, header: Segment)
      ensures this.version == version && this.header == header
    {
      this.version := version;
      this.header := header;
    }
  }
}
