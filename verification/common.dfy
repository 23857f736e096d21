/** Shared vocabulary of the container library model: optional values, the
    fixed-width integer ranges the C code works in, and the hash function the
    map is parameterised by. */
module Common {

  /** An optional value; `None` stands for a NULL pointer or a failed call. */
  datatype Option<+T> = None | Some(value: T)

  /** The boolean a mutating call returns together with the container
      state it leaves behind (which may have changed even on failure). */
  datatype Outcome<T> = Outcome(ok: bool, state: T)

  /** One byte of a buffer (`unsigned char`). */
  type byte = x: int | 0 <= x < 256

  const U32Modulus: nat := 0x1_0000_0000

  /** The range of `uint32_t`. */
  type u32 = x: int | 0 <= x < U32Modulus

  /** 2^64: `size_t` arithmetic wraps modulo this value. */
  const WordModulus: nat := 0x1_0000_0000_0000_0000

  /** The 32-bit hash of a key's bytes under a per-map seed. The library uses
      spooky_hash32, whose definition is outside this model, so every map
      operation takes the hash function as a parameter. */
  type Hasher = (u32, seq<byte>) -> u32
}
