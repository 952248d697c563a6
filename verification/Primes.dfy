/** The odd constants every mixing step multiplies by. */
module Primes {
  import opened Words

  const PRIME32_1: u32 := 0x9E3779B1
  const PRIME32_2: u32 := 0x85EBCA77
  const PRIME32_3: u32 := 0xC2B2AE3D
  const PRIME32_4: u32 := 0x27D4EB2F
  const PRIME32_5: u32 := 0x165667B1

  const PRIME64_1: u64 := 0x9E3779B185EBCA87
  const PRIME64_2: u64 := 0xC2B2AE3D27D4EB4F
  const PRIME64_3: u64 := 0x165667B19E3779F9
  const PRIME64_4: u64 := 0x85EBCA77C2B2AE63
  const PRIME64_5: u64 := 0x27D4EB2F165667C5

  // Their inverses modulo 2^32 and 2^64.

  const INVERSE32_1: u32 := 0x0E8B2F51
  const INVERSE32_2: u32 := 0xB6C92F47
  const INVERSE32_3: u32 := 0xA89ED915
  const INVERSE32_4: u32 := 0xA0FE3BCF
  const INVERSE32_5: u32 := 0xAE398151

  const INVERSE64_1: u64 := 0x0887493432BADB37
  const INVERSE64_2: u64 := 0x0BA79078168D4BAF
  const INVERSE64_3: u64 := 0xE9E9F4C41D6DF849
  const INVERSE64_4: u64 := 0xD872E78F6FE1434B
  const INVERSE64_5: u64 := 0xC592C09FDFBA7F0D

  lemma InversePrimes()
    ensures Mul32(PRIME32_1, INVERSE32_1) == Mul32(PRIME32_2, INVERSE32_2) == Mul32(PRIME32_3, INVERSE32_3) == 1
    ensures Mul32(PRIME32_4, INVERSE32_4) == Mul32(PRIME32_5, INVERSE32_5) == 1
    ensures Mul64(PRIME64_1, INVERSE64_1) == Mul64(PRIME64_2, INVERSE64_2) == Mul64(PRIME64_3, INVERSE64_3) == 1
    ensures Mul64(PRIME64_4, INVERSE64_4) == Mul64(PRIME64_5, INVERSE64_5) == 1
  {
  }
}
