/**
 The `SphereType` enumeration of the editor: a base value in the low bits and an
 independent ring marker in bit 7 (`RingFlag = 0x80`), combined with `|` and
 removed with `& ~RingFlag`. Every value the editor produces (palette choices,
 tiles masked with 0x3FF, either of them with the ring marker) is below 0x400.
 */
module SphereTypes {

  type SphereType = x: int | 0 <= x < 0x400

  const Empty: SphereType := 0
  const Blue: SphereType := 1
  const Red: SphereType := 2
  const Bumper: SphereType := 3
  const Yellow: SphereType := 4
  const Green: SphereType := 5
  const Pink: SphereType := 6
  const Ring: SphereType := 7
  const StartN: SphereType := 8
  const StartW: SphereType := 9
  const StartS: SphereType := 10
  const StartE: SphereType := 11
  const RingFlag: SphereType := 0x80

  /** `s.HasFlag(RingFlag)`: bit 7 of the value. */
  predicate HasRing(s: int)
    requires s >= 0
  {
    (s / RingFlag) % 2 == 1
  }

  /** True when two values agree on every bit except bit 7. */
  predicate SameOtherBits(s: int, t: int)
    requires s >= 0 && t >= 0
  {
    s % RingFlag == t % RingFlag && s / (2 * RingFlag) == t / (2 * RingFlag)
  }

  /** `s | RingFlag` */
  function SetRing(s: SphereType): (r: SphereType)
    ensures HasRing(r) && SameOtherBits(r, s)
  {
    if HasRing(s) then s else s + RingFlag
  }

  /** `s & ~RingFlag` */
  function ClearRing(s: SphereType): (r: SphereType)
    ensures !HasRing(r) && SameOtherBits(r, s)
  {
    if HasRing(s) then s - RingFlag else s
  }

  /** The four start-marker values, one per facing angle. */
  predicate IsStart(s: int)
  {
    StartN <= s <= StartE
  }

  /** An empty cell with the marker set is the marker alone. */
  lemma RingOfEmpty()
    ensures !HasRing(Empty) && SetRing(Empty) == RingFlag && HasRing(RingFlag) && ClearRing(RingFlag) == Empty
  {
  }

  /** Setting and clearing the marker undo each other; a value is recovered from its base and its flag. */
  lemma RingFlagRoundTrip(s: SphereType)
    ensures ClearRing(SetRing(s)) == ClearRing(s)
    ensures SetRing(ClearRing(s)) == SetRing(s)
    ensures s == (if HasRing(s) then SetRing(ClearRing(s)) else ClearRing(s))
  {
  }
}
