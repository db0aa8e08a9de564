// The records a caller hands to the lookup as its `data` and
// `selectedItems`.

module Candidates {

  /** One caller-supplied record. The lookup compares candidates with `===`,
      so a candidate is an object and two candidates are the same exactly when
      they are the same reference, whatever their properties. The lookup only
      reads a candidate's string-valued properties. */
  class Candidate {
    const properties: map<string, string>

    constructor (properties: map<string, string>)
      ensures this.properties == properties
    {
      this.properties := properties;
    }
  }

  /** `item[name] || ''`: a missing property reads as the empty string. */
  function Property(item: Candidate, name: string): string
  {
    if name in item.properties then item.properties[name] else ""
  }
}
