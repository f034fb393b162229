/** How sure the analysis is of what it reports. */
module Confidences {

  datatype Confidence = Unavailable | Low | Medium | High

  function Level(c: Confidence): nat {
    match c
    case Unavailable => 0
    case Low => 1
    case Medium => 2
    case High => 3
  }
}
