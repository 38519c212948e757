// Sets of flags in one word, as the server keeps user modes and channel flags.
module ModeBits {

  predicate Has(u: bv32, mode: bv32) { u & mode != 0 }

  function Union(a: bv32, b: bv32): bv32 { a | b }

  function Common(a: bv32, b: bv32): bv32 { a & b }

  function Without(a: bv32, b: bv32): bv32 { a & !b }
}
