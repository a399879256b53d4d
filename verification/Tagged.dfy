/** Tagged hashes (key.py, `TaggedHash`). */
module Tagged {
  import opened Bytes

  ghost predicate Yields32(f: (string, bytes) -> bytes) {
    forall tag, data :: |f(tag, data)| == 32
  }

  /** `TaggedHash`, as an arbitrary function with 32-byte results. */
  type TaggedHash = f: (string, bytes) -> bytes | Yields32(f) ghost witness (tag: string, data: bytes) => Zeros(32)

  /** What is hashed: a tag and data. */
  datatype Input = Input(tag: string, data: bytes)

  ghost predicate TaggedCollision(f: (string, bytes) -> bytes, x: Input, y: Input) {
    x != y && f(x.tag, x.data) == f(y.tag, y.data)
  }
}
