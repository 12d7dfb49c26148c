/**
  The value records of the arcade round: colours, the field tint, the two
  squares, circular pickups and the field rectangle. Coordinates are reals;
  the renderer's RGBA colours are replaced by enumerations.
 */
module Entities {

  datatype Option<+T> = None | Some(value: T)

  /** The colour of a square or of a pickup. */
  datatype Colour = Red | Green | Gray

  /** The background of the field; it starts Gray and only pickups change it. */
  datatype Tint = TGray | LightRed | LightGreen

  /** Fraction of the initial size a square loses in one shrink step. */
  const ShrunkRatio: real := 0.2

  /** Radius of every spawned pickup. */
  const PickupRadius: real := 10.0

  /** Top-left corner (x, y), current side w, initial side initW, velocity (vx, vy). */
  datatype Square = Square(x: real, y: real, w: real, initW: real,
                           vx: real, vy: real, col: Colour, name: string)

  /** Centre (x, y) and radius r. */
  datatype Pickup = Pickup(x: real, y: real, r: real, col: Colour)

  /** Origin (x, y) and extent (w, h) of the play area. */
  datatype Field = Field(x: real, y: real, w: real, h: real)

  function Abs(v: real): (r: real)
    ensures 0.0 <= r
    ensures r == v || r == -v
  {
    if v < 0.0 then -v else v
  }

  /** The size a square loses in one shrink step. */
  function Step(s: Square): real {
    s.initW * ShrunkRatio
  }

  /** The tint a consumed pickup leaves on the field. */
  function TintFor(c: Colour): (t: Tint)
    ensures Canonical(t) == c
  {
    match c
    case Green => LightGreen
    case Red => LightRed
    case Gray => TGray
  }

  /** Every tint is the tint of exactly one pickup colour. */
  lemma TintRoundTrip(t: Tint)
    ensures TintFor(Canonical(t)) == t
  {
  }

  /** The colour a tint favours: a square of this colour is not vulnerable. */
  function Canonical(t: Tint): Colour {
    match t
    case LightRed => Red
    case LightGreen => Green
    case TGray => Gray
  }
}
