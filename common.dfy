/** Small shared vocabulary of the clipper: optional references and the
    two-slot arrays that the sweep indexes by polygon type.

    The clipper keeps its flags (parities, bundle bits, bundle sides,
    quadrant bits) as the JavaScript numbers 0 and 1 and combines them with
    `^`, `&&`, `||` and `!= 0`.  Here a flag is a `bool`: 1 is `true`, and
    `a ^ b` on two flags is `a != b`. */
module Common {

  datatype Option<+T> = None | Some(value: T)

  /** A vertex.  Coordinates are exact reals: the floating-point rounding of
      the JavaScript numbers is not modelled. */
  datatype Point = Point(x: real, y: real)

  /** Which input polygon an edge belongs to: `Clip.CLIP` (0) or `Clip.SUBJ` (1). */
  datatype PolyType = ClipPoly | SubjPoly {
    /** `type == 0 ? 1 : 0`: the other input polygon. */
    function Opposite(): PolyType {
      if ClipPoly? then SubjPoly else ClipPoly
    }
  }

  /** A two-element array indexed by `Clip.CLIP` and `Clip.SUBJ`. */
  datatype Pair<T> = Pair(clip: T, subj: T) {
    function Get(t: PolyType): T {
      if t.ClipPoly? then clip else subj
    }

    function Set(t: PolyType, v: T): (r: Pair<T>)
      ensures r.Get(t) == v && r.Get(t.Opposite()) == Get(t.Opposite())
    {
      if t.ClipPoly? then this.(clip := v) else this.(subj := v)
    }
  }

  /** The flag arrays of `Clip.clip` (`parity`, `bundle[ABOVE]`,
      `bundle[BELOW]`, `bside`). */
  type BitPair = Pair<bool>

  /** Both flags zero. */
  const NoBits: BitPair := Pair(false, false)
}
