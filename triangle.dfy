/** The identity of an assembled triangle and the legs it is traded in
    (src/brain/triangle.rs). */
module Triangle {

  /** Three pair symbols and the direction of the first leg. Equality is
      field-wise over `a`, `b`, `c` and `d`, as the derived `Eq` and `Hash`. */
  datatype TriangleKey = TriangleKey(a: string, b: string, c: string, d: string)

  /** One leg: (pair symbol, direction). */
  type TriangleElement = (string, string)

  const SELL: string := "SELL"
  const BUY: string := "BUY"

  /** The key names `v` as one of its three pair symbols. */
  predicate Mentions(key: TriangleKey, v: string) {
    key.a == v || key.b == v || key.c == v
  }
}
