// Small shared vocabulary: bytes and an optional value.
module Common {
  /** One octet of a byte stream or payload. */
  type byte = bv8

  /** std::optional. */
  datatype Option<+T> = None | Some(value: T)

  function Min(a: int, b: int): int
  {
    if a <= b then a else b
  }

  /** The result of a loop that emits output (its last component), with more output
      emitted before it: the loop invariants of the reassembler's drain and of the
      sender's push state that the whole loop's result is what was emitted so far
      followed by what the rest of the loop emits. */
  function Prepended<A, B, C>(before: seq<C>, r: (A, B, seq<C>)): (r': (A, B, seq<C>))
    ensures r'.0 == r.0 && r'.1 == r.1 && r'.2 == before + r.2
  {
    (r.0, r.1, before + r.2)
  }
}
