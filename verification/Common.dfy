/** Types shared by the components. */
module Common {
  datatype Option<+T> = None | Some(value: T)

  datatype Result<+T, +E> = Ok(value: T) | Err(error: E)

  /** 256-bit hashes, compared only for equality. */
  type Hash = nat

  /** The all-zero hash, the previous hash of the genesis block. */
  const EMPTY_HASH: Hash := 0
}
