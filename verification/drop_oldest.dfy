/** The rule both buffers of the message broker follow when they are full. */
module DropOldest {

  /** What a buffer of the given size drops to make room for a new message: the oldest one
      if it is full, nothing otherwise. */
  function Oldest<T>(buffer: seq<T>, maxSize: nat): (dropped: seq<T>)
    requires maxSize > 0
    ensures dropped <= buffer && |dropped| <= 1
    ensures dropped != [] <==> |buffer| >= maxSize
  {
    if |buffer| >= maxSize then buffer[..1] else []
  }
}
