/** The 32-bit word operations both hashes are built from. */
module Words {
  import opened Bytes

  /** Addition modulo 2^32. */
  function Add(x: bv32, y: bv32): bv32 { x + y }

  function Xor4(x: bv32, y: bv32, z: bv32, u: bv32): bv32 { x ^ y ^ z ^ u }

  /** Circular left shift by n bits. */
  function Rotl(n: nat, w: bv32): bv32
    requires n <= 32
  {
    (w << n) | (w >> (32 - n))
  }

  /** An octet moved into a word, n bits up. */
  function Octet(b: byte, n: nat): bv32
    requires n <= 32
  {
    b as bv32 << n
  }

  lemma AddCommutes(x: bv32, y: bv32)
    ensures Add(x, y) == Add(y, x)
  {
  }

  lemma RawAssociates(x: bv32, y: bv32, z: bv32)
    ensures x + (y + z) == (x + y) + z
  {
  }

  lemma AddAssociates(x: bv32, y: bv32, z: bv32)
    ensures Add(x, Add(y, z)) == Add(Add(x, y), z)
  {
    calc {
      Add(x, Add(y, z));
      Add(x, y + z);
      x + (y + z);
      { RawAssociates(x, y, z); }
      (x + y) + z;
      Add(x + y, z);
    }
  }

  lemma AddRegroups(x: bv32, y: bv32, z: bv32, u: bv32)
    ensures Add(x, Add(Add(y, z), u)) == Add(Add(Add(x, y), z), u)
  {
    hide Add;
    AddAssociates(x, Add(y, z), u);
    AddAssociates(x, y, z);
  }
}
