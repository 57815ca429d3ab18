/** Octets, the sequences of them the whole library moves around, and the fixed-width
    big-endian and little-endian number layouts the wire formats and hashes share. */
module Bytes {
  type byte = x: int | 0 <= x < 0x100
  type uint16 = x: int | 0 <= x < 0x1_0000
  type uint32 = x: int | 0 <= x < 0x1_0000_0000

  /** C's conversion of an int to uint8_t, uint16_t and uint32_t: reduction modulo the width. */
  function U8(n: int): byte { n % 0x100 }
  function U16(n: int): uint16 { n % 0x1_0000 }
  function U32(n: int): uint32 { n % 0x1_0000_0000 }

  /** Its conversion to a signed 32-bit int. */
  function S32(n: int): int { (n + 0x8000_0000) % 0x1_0000_0000 - 0x8000_0000 }

  function Zeros(n: nat): (r: seq<byte>)
    ensures |r| == n
  {
    seq(n, _ => 0)
  }

  /** A 32-bit number, most significant octet first. */
  function BE32(n: uint32): (r: seq<byte>)
    ensures |r| == 4
  {
    [n / 0x100_0000, n / 0x1_0000 % 0x100, n / 0x100 % 0x100, n % 0x100]
  }

  /** A 32-bit number, least significant octet first. */
  function LE32(n: uint32): (r: seq<byte>)
    ensures |r| == 4
  {
    [n % 0x100, n / 0x100 % 0x100, n / 0x1_0000 % 0x100, n / 0x100_0000]
  }

  /** The octets of a word, weighted by their places, make it up again. */
  lemma WordPlaces(n: uint32)
    ensures var r := BE32(n); r[0] as int * 0x100_0000 + r[1] as int * 0x1_0000 + r[2] as int * 0x100 + r[3] == n
    ensures var r := LE32(n); r[3] as int * 0x100_0000 + r[2] as int * 0x1_0000 + r[1] as int * 0x100 + r[0] == n
  {
    assert n == n / 0x100 * 0x100 + n % 0x100;
    assert n / 0x100 == n / 0x1_0000 * 0x100 + n / 0x100 % 0x100;
    assert n / 0x1_0000 == n / 0x100_0000 * 0x100 + n / 0x1_0000 % 0x100;
  }

  /** A conversion keeps what the width can hold and has its width as a period. */
  lemma Conversions(n: int)
    ensures (0 <= n < 0x100 ==> U8(n) == n) && U8(n + 0x100) == U8(n)
    ensures (0 <= n < 0x1_0000 ==> U16(n) == n) && U16(n + 0x1_0000) == U16(n)
    ensures (0 <= n < 0x1_0000_0000 ==> U32(n) == n) && U32(n + 0x1_0000_0000) == U32(n)
    ensures (-0x8000_0000 <= n < 0x8000_0000 ==> S32(n) == n) && S32(n + 0x1_0000_0000) == S32(n)
  {
  }

  /** The concatenation of a list of pieces. */
  function Concat<T>(pieces: seq<seq<T>>): seq<T> {
    if pieces == [] then [] else pieces[0] + Concat(pieces[1..])
  }

  lemma {:induction false} ConcatAppend<T>(a: seq<seq<T>>, b: seq<seq<T>>)
    ensures Concat(a + b) == Concat(a) + Concat(b)
  {
    if a == [] {
      assert a + b == b;
    } else {
      var ab, x, y, z := a + b, a[0], Concat(a[1..]), Concat(b);
      ConcatAppend(a[1..], b);
      assert ab[0] == x && ab[1..] == a[1..] + b;
      assert x + (y + z) == (x + y) + z;
    }
  }

  lemma {:induction false} ConcatSnoc<T>(a: seq<seq<T>>, p: seq<T>)
    ensures Concat(a + [p]) == Concat(a) + p
  {
    ConcatAppend(a, [p]);
    assert Concat([p]) == p + Concat<T>([]);
  }

  lemma ConcatEmpty<T>()
    ensures Concat<T>([]) == []
  {
  }

  lemma ConcatTake<T>(pieces: seq<seq<T>>, i: nat)
    requires i < |pieces|
    ensures Concat(pieces[..i + 1]) == Concat(pieces[..i]) + pieces[i]
  {
    assert pieces[..i + 1] == pieces[..i] + [pieces[i]];
    ConcatSnoc(pieces[..i], pieces[i]);
  }
}
