/** Values shared by both deck-image scripts: pixel colours and the failure wrappers. */
module Types {

  /** An RGB triple as a Python tuple holds it; channels are unbounded integers. */
  datatype Rgb = Rgb(r: int, g: int, b: int)

  /** The background colour of a new image ('black'). */
  const Black: Rgb := Rgb(0, 0, 0)

  predicate IsByte(v: int) { 0 <= v <= 255 }

  /** Every channel fits the 8-bit range of a 24-bit RGB image. */
  predicate InByteRange(c: Rgb) { IsByte(c.r) && IsByte(c.g) && IsByte(c.b) }

  /** Both decks are suit-major with thirteen cards per suit (per base colour). */
  const CardsPerSuit: nat := 13

  /** Position of card i of suit (or base colour) k in a suit-major deck. */
  function DeckIndex(k: nat, i: nat): nat
  {
    CardsPerSuit * k + i
  }

  datatype Option<T> = None | Some(value: T)

  datatype Result<T, E> = Ok(value: T) | Err(error: E)
}
