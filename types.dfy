/**
 * The value tree of the mal step-1 interpreter (cpp2/types.h).
 *
 * A form is either an atom or a list of forms; an atom is either a symbol,
 * which wraps its text verbatim (the empty text included), or a signed
 * 64-bit integer. Being closed sums, the datatypes below make every value
 * exactly one of these shapes; list order is the order of the sequence.
 */
module Types {

  const Int64Min: int := -0x8000_0000_0000_0000
  const Int64Max: int := 0x7FFF_FFFF_FFFF_FFFF

  /** `int64_t`: the integers in [-2^63, 2^63 - 1]. */
  type int64 = x: int | -0x8000_0000_0000_0000 <= x <= 0x7FFF_FFFF_FFFF_FFFF

  /** `atom_t`, a variant of `symbol` and `int64_t`. */
  datatype Atom = Symbol(text: string) | Int(value: int64)

  /** `MalType`, a variant of `atom_t` and `MalList` (a vector of `MalType`). */
  datatype MalType = Atomic(atom: Atom) | List(items: seq<MalType>)
}
