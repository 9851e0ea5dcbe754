/** A value that may be absent. The classifier uses it for a packet without a
    UDP layer and for a packet it rejects; the reassembler uses it for the
    start time of a frame no packet has opened yet. */
module Options {

  datatype Option<T> = None | Some(value: T) {

    /** The held value, or `fallback` when there is none. */
    function ValueOr(fallback: T): (v: T)
      ensures Some? ==> v == value
      ensures None? ==> v == fallback
    {
      if Some? then value else fallback
    }
  }
}
