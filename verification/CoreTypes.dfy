/** Value types shared by every book, and the machine-integer bounds they live in. */
module CoreTypes {
  const INT64_MIN: int := -0x8000_0000_0000_0000
  const INT64_MAX: int := 0x7FFF_FFFF_FFFF_FFFF
  /** 2^64: unsigned arithmetic is taken modulo this. */
  const U64_MODULUS: int := 0x1_0000_0000_0000_0000

  type int64 = x: int | INT64_MIN <= x <= INT64_MAX
  type uint64 = x: int | 0 <= x < U64_MODULUS

  /** Venue-assigned order identifier. */
  type OrderId = uint64

  datatype Option<+T> = None | Some(value: T)

  datatype Side = Bid | Ask

  /** One aggregated price level. */
  datatype Level = Level(price: int, qty: int)

  /** `a` is nearer the touch than `b`: the higher bid, the lower ask. */
  predicate Precedes(side: Side, a: int, b: int) {
    if side.Bid? then a > b else a < b
  }

  function Min(a: int, b: int): int { if a < b then a else b }
  function Max(a: int, b: int): int { if a < b then b else a }
}
