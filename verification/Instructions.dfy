/** Store instructions, as clients issue them and instances carry them. */
module Instructions {

  import opened Bytes

  type Text = seq<Byte>

  /** A time in its 15-byte encoded form, version byte first, which fixes it completely. */
  predicate IsTime(t: seq<Byte>) {
    |t| == 15 && t[0] == 1
  }

  type Time = t: seq<Byte> | IsTime(t) witness [1, 0, 0, 0, 0, 0, 0, 0, 0, 0, 0, 0, 0, 0, 0]

  /** The zero time, and the instants other times denote; any will do. */
  const ZERO_TIME: Time
  const SinceZero: Time -> int

  /** The instant a time denotes, counted from the zero time. */
  function InstantOf(t: Time): int {
    if t == ZERO_TIME then 0 else SinceZero(t)
  }

  datatype Instruction = Instruction(cmd: Text, key: Text, args: seq<Text>, timestamp: Time)
}
