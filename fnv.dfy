/** Model of src/fnvhasher.rs: the 64-bit FNV-1a hash. The state starts at the
    offset basis; each byte is XORed into it and the state is then multiplied by
    the FNV prime. The state is a `bv64`, whose multiplication wraps modulo 2^64
    exactly as the program's `u64` multiplication does. */
module Fnv {

  /** The FNV-1a 64-bit offset basis, 14695981039346656037. */
  const OFFSET_BASIS: bv64 := 0xcbf2_9ce4_8422_2325
  /** The FNV 64-bit prime, 1099511628211. */
  const PRIME: bv64 := 0x100_0000_01b3

  /** One byte of `write`: XOR the byte in, then multiply by the prime (the two
      assignments in the body of the byte loop). */
  function Step(state: bv64, byte: bv8): bv64
  {
    (state ^ (byte as bv64)) * PRIME
  }

  /** The state after the bytes are written one by one, in order, from `state`. */
  function WriteAll(state: bv64, bytes: seq<bv8>): bv64
  {
    if bytes == [] then state else Step(WriteAll(state, bytes[..|bytes| - 1]), bytes[|bytes| - 1])
  }

  /** `FnvState`: the running hash state. */
  class FnvState {
    var hash: bv64

    constructor (seed: bv64)
      ensures hash == seed
    {
      hash := seed;
    }

    /** `write`: folds the bytes into the state, first byte first. */
    method Write(bytes: seq<bv8>)
      modifies this
      ensures hash == WriteAll(old(hash), bytes)
    {
      var h := hash;
      for i := 0 to |bytes|
        invariant h == WriteAll(hash, bytes[..i])
        invariant hash == old(hash)
      {
        assert bytes[..i + 1][..i] == bytes[..i];
        h := Step(h, bytes[i]);
      }
      assert bytes[..|bytes|] == bytes;
      hash := h;
    }
  }

  /** Writing nothing leaves the state alone; writing one byte is one step. */
  lemma WriteAllSmall(state: bv64, byte: bv8)
    ensures WriteAll(state, []) == state
    ensures WriteAll(state, [byte]) == (state ^ (byte as bv64)) * PRIME
  {
    assert [byte][..0] == [];
  }

  /** Writing `a` and then `b` leaves the same state as writing `a + b`. */
  lemma {:induction false} WriteAllAppend(state: bv64, a: seq<bv8>, b: seq<bv8>)
    ensures WriteAll(WriteAll(state, a), b) == WriteAll(state, a + b)
  {
    if b != [] {
      var front := b[..|b| - 1];
      WriteAllAppend(state, a, front);
      assert (a + b)[..|a + b| - 1] == a + front;
    } else {
      assert a + b == a;
    }
  }

  /** The bytes of all chunks, in order. */
  function Concat(chunks: seq<seq<bv8>>): (bytes: seq<bv8>)
  {
    if chunks == [] then [] else Concat(chunks[..|chunks| - 1]) + chunks[|chunks| - 1]
  }

  /** `FnvHasher::hash`: a fresh state at the offset basis receives the value's
      bytes through any number of `write` calls (`chunks`); the result is the hash
      of all those bytes together, however they were split. */
  method Hash(chunks: seq<seq<bv8>>) returns (h: bv64)
    ensures h == WriteAll(OFFSET_BASIS, Concat(chunks))
  {
    var state := new FnvState(OFFSET_BASIS);
    for i := 0 to |chunks|
      invariant state.hash == WriteAll(OFFSET_BASIS, Concat(chunks[..i]))
    {
      state.Write(chunks[i]);
      WriteAllAppend(OFFSET_BASIS, Concat(chunks[..i]), chunks[i]);
      assert chunks[..i + 1][..i] == chunks[..i];
    }
    assert chunks[..|chunks|] == chunks;
    h := state.hash;
  }

  /** Published FNV-1a 64-bit test vectors: the empty input hashes to the offset
      basis, "a" to 0xaf63dc4c8601ec8c and "foobar" to 0x85944171f73967e8. */
  lemma KnownVectors()
    ensures WriteAll(OFFSET_BASIS, []) == 0xcbf2_9ce4_8422_2325
    ensures WriteAll(OFFSET_BASIS, [0x61]) == 0xaf63_dc4c_8601_ec8c
    ensures WriteAll(OFFSET_BASIS, [0x66, 0x6f, 0x6f, 0x62, 0x61, 0x72]) == 0x8594_4171_f739_67e8
  {
    var foobar: seq<bv8> := [0x66, 0x6f, 0x6f, 0x62, 0x61, 0x72];
    assert [0x61 as bv8][..0] == [];
    assert foobar[..0] == [];
    assert foobar[..5][..4][..3][..2][..1] == foobar[..1];
    var s1 := Step(OFFSET_BASIS, 0x66);
    var s2 := Step(s1, 0x6f);
    var s3 := Step(s2, 0x6f);
    var s4 := Step(s3, 0x62);
    var s5 := Step(s4, 0x61);
    assert WriteAll(OFFSET_BASIS, foobar[..1]) == s1;
    assert WriteAll(OFFSET_BASIS, foobar[..2]) == s2 by { assert foobar[..2][..1] == foobar[..1]; }
    assert WriteAll(OFFSET_BASIS, foobar[..3]) == s3 by { assert foobar[..3][..2] == foobar[..2]; }
    assert WriteAll(OFFSET_BASIS, foobar[..4]) == s4 by { assert foobar[..4][..3] == foobar[..3]; }
    assert WriteAll(OFFSET_BASIS, foobar[..5]) == s5 by { assert foobar[..5][..4] == foobar[..4]; }
    assert WriteAll(OFFSET_BASIS, foobar) == Step(s5, 0x72) by { assert foobar[..5] == foobar[..|foobar| - 1]; }
  }
}
