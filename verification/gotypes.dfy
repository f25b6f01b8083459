/** The fixed-width Go types the service uses, as bounded subsets of `int`. */
module GoTypes {

  const MinInt64: int := -0x8000_0000_0000_0000
  const MaxInt64: int := 0x7fff_ffff_ffff_ffff

  /** Go's `int64`: user ids and the `user_id` claim. */
  type Int64 = x: int | MinInt64 <= x <= MaxInt64

  /** Go's `byte`: the signing secret is a `[]byte`. */
  type Byte = x: int | 0 <= x < 256
}
