/**
 * The bit packer of the codec: a message is a sequence of bytes, expanded
 * into bits eight per byte, most significant bit first, in message order
 * (the `reduce` at the top of `hide`), and packed back eight bits at a time
 * (the shift-and-or accumulation of `seek`).
 */
module Bits {

  /** One element of a `Uint8Array`. */
  type Byte = b: int | 0 <= b < 256

  /** A single bit, as the numbers 0 and 1 that `hide` pushes. */
  type Bit = b: int | 0 <= b <= 1

  function Pow2(n: nat): (p: nat)
    ensures p >= 1
  {
    if n == 0 then 1 else 2 * Pow2(n - 1)
  }

  /** `b >> n` on a non-negative number: `n` halvings, each rounding down. */
  function Shr(b: nat, n: nat): nat
  {
    if n == 0 then b else Shr(b / 2, n - 1)
  }

  lemma Pow2Eight()
    ensures Pow2(8) == 256
  {
  }

  /** The low `n` bits of `b`, most significant first. */
  function BitsOf(b: nat, n: nat): (s: seq<Bit>)
    ensures |s| == n
  {
    if n == 0 then [] else BitsOf(b / 2, n - 1) + [b % 2]
  }

  /** The eight bits of one byte, most significant first. */
  function ByteBits(b: Byte): (s: seq<Bit>)
  {
    BitsOf(b, 8)
  }

  /** Bit expansion of a whole message: each byte's bits in message order. */
  function ToBits(m: seq<Byte>): seq<Bit>
  {
    if m == [] then [] else ByteBits(m[0]) + ToBits(m[1..])
  }

  /** Reads a bit sequence as a binary number, most significant bit first:
      each step is `byte = (byte << 1) | bit`. */
  function Pack(bits: seq<Bit>): (r: nat)
    ensures r < Pow2(|bits|)
  {
    if bits == [] then 0 else 2 * Pack(bits[..|bits| - 1]) + bits[|bits| - 1]
  }

  /** Eight packed bits make a byte. */
  lemma {:induction false} PackByte(s: seq<Bit>)
    requires |s| == 8
    ensures Pack(s) < 256
  {
    Pow2Eight();
  }

  /** Groups bits in chunks of eight and packs each chunk into a byte; a
      trailing group of fewer than eight bits is dropped. */
  function FromBits(bits: seq<Bit>): (m: seq<Byte>)
    ensures |m| == |bits| / 8
  {
    if |bits| < 8 then [] else [Pack(bits[..8]) as Byte] + FromBits(bits[8..])
  }

  lemma {:induction false} MulAtLeast(k: int, d: int)
    requires k >= 1 && d > 0
    ensures k * d >= d
  {
    if k > 1 {
      MulAtLeast(k - 1, d);
      assert k * d == (k - 1) * d + d;
    }
  }

  /** Euclidean division is determined by quotient and remainder. */
  lemma {:induction false} DivUnique(b: int, d: int, q: int, r: int)
    requires d > 0 && 0 <= r < d && b == q * d + r
    ensures b / d == q
  {
    var q0, r0 := b / d, b % d;
    assert b == q0 * d + r0;
    if q0 < q {
      assert q * d == (q - q0) * d + q0 * d;
      MulAtLeast(q - q0, d);
      assert false;
    } else if q < q0 {
      assert q0 * d == (q0 - q) * d + q * d;
      MulAtLeast(q0 - q, d);
      assert false;
    }
  }

  /** One more halving: `(b >> n) >> 1 == b >> (n + 1)`. */
  lemma {:induction false} DivDiv(b: nat, n: nat)
    ensures Shr(b, n) / 2 == Shr(b, n + 1)
  {
    if n > 0 {
      DivDiv(b / 2, n - 1);
    }
  }

  /** Bit `j` of `BitsOf(b, n)` is `(b >> (n - 1 - j)) & 1`. */
  lemma {:induction false} BitsOfAt(b: nat, n: nat, j: nat)
    requires j < n
    ensures BitsOf(b, n)[j] == Shr(b, n - 1 - j) % 2
  {
    if j < n - 1 {
      BitsOfAt(b / 2, n - 1, j);
    }
  }

  lemma {:induction false} HalfBelow(b: nat, n: nat)
    requires n > 0 && b < Pow2(n)
    ensures b / 2 < Pow2(n - 1)
  {
  }

  /** Packing the low `n` bits of a number below 2^n gives the number back. */
  lemma {:induction false} PackBitsOf(b: nat, n: nat)
    requires b < Pow2(n)
    ensures Pack(BitsOf(b, n)) == b
  {
    if n > 0 {
      var s := BitsOf(b, n);
      assert s[..|s| - 1] == BitsOf(b / 2, n - 1);
      assert s[|s| - 1] == b % 2;
      HalfBelow(b, n);
      PackBitsOf(b / 2, n - 1);
    }
  }

  /** One accumulation step of `seek`: `(byte << 1) | bit`. */
  lemma {:induction false} PackSnoc(s: seq<Bit>, b: Bit)
    ensures Pack(s + [b]) == 2 * Pack(s) + b
  {
    assert (s + [b])[..|s|] == s;
  }

  /** Expanding a packed number gives back the bits it was packed from. */
  lemma {:induction false} BitsOfPack(s: seq<Bit>)
    ensures BitsOf(Pack(s), |s|) == s
  {
    if s != [] {
      var init, last := s[..|s| - 1], s[|s| - 1];
      BitsOfPack(init);
      var p := Pack(s);
      assert p == 2 * Pack(init) + last;
      assert p / 2 == Pack(init) && p % 2 == last;
      assert s == init + [last];
    }
  }

  /** Bit `t` (most significant first) of a packed sequence is `s[t]`. */
  lemma {:induction false} PackBit(s: seq<Bit>, t: nat)
    requires t < |s|
    ensures Shr(Pack(s), |s| - 1 - t) % 2 == s[t]
  {
    BitsOfPack(s);
    BitsOfAt(Pack(s), |s|, t);
  }

  /** Bit expansion yields exactly eight bits per byte. */
  lemma {:induction false} ToBitsLength(m: seq<Byte>)
    ensures |ToBits(m)| == 8 * |m|
  {
    if m != [] {
      ToBitsLength(m[1..]);
    }
  }

  /** Bit `j` of byte `i` of the message sits at position 8i+j of the
      expansion, and is `(m[i] >> (7 - j)) & 1`: most significant first. */
  lemma {:induction false} ToBitsAt(m: seq<Byte>, i: nat, j: nat)
    requires i < |m| && j < 8
    ensures |ToBits(m)| == 8 * |m|
    ensures ToBits(m)[8 * i + j] == Shr(m[i], 7 - j) % 2
  {
    ToBitsLength(m);
    if i == 0 {
      BitsOfAt(m[0], 8, j);
    } else {
      ToBitsAt(m[1..], i - 1, j);
      ToBitsLength(m[1..]);
      assert ToBits(m)[8 * i + j] == ToBits(m[1..])[8 * (i - 1) + j];
    }
  }

  lemma {:induction false} ToBitsAppend(m: seq<Byte>, b: Byte)
    ensures ToBits(m + [b]) == ToBits(m) + ByteBits(b)
  {
    if m == [] {
      assert ToBits([b]) == ByteBits(b) + ToBits([]);
    } else {
      assert (m + [b])[1..] == m[1..] + [b];
      ToBitsAppend(m[1..], b);
    }
  }

  /** Packing is the inverse of expansion: no byte is lost or altered. */
  lemma {:induction false} FromToBits(m: seq<Byte>)
    ensures FromBits(ToBits(m)) == m
  {
    if m != [] {
      ToBitsLength(m[1..]);
      var s := ToBits(m);
      assert s[..8] == ByteBits(m[0]);
      assert s[8..] == ToBits(m[1..]);
      PackBitsOf(m[0], 8);
      FromToBits(m[1..]);
    }
  }

  /** Byte `j` of the packed message is the packing of bits 8j..8j+7. */
  lemma {:induction false} FromBitsAt(bits: seq<Bit>, j: nat)
    requires 8 * j + 8 <= |bits|
    ensures FromBits(bits)[j] == Pack(bits[8 * j..8 * j + 8])
  {
    if j > 0 {
      var rest, lo := bits[8..], 8 * (j - 1);
      FromBitsAt(rest, j - 1);
      assert lo + 8 == 8 * j;
      assert rest[lo..lo + 8] == bits[lo + 8..lo + 16];
    }
  }

  /**
   * The callback that `hide` passes to `reduce`: push the bits of one byte,
   * `(byte >> index) & 0x01` for index 7 down to 0, onto the bits so far.
   */
  method PushByteBits(bits0: seq<Bit>, byte: Byte) returns (bits: seq<Bit>)
    ensures bits == bits0 + ByteBits(byte)
    ensures |bits| == |bits0| + 8
  {
    bits := bits0;
    var index := 7;
    while index >= 0
      invariant -1 <= index <= 7
      invariant bits == bits0 + BitsOf(Shr(byte, index + 1), 7 - index)
    {
      ghost var q := Shr(byte, index);
      DivDiv(byte, index);
      assert BitsOf(q, 8 - index) == BitsOf(q / 2, 7 - index) + [q % 2];
      bits := bits + [Shr(byte, index) % 2];
      index := index - 1;
    }
  }

  /** The bit expansion of `hide`: `input.reduce(PushByteBits, [])`. */
  method ExpandBits(input: seq<Byte>) returns (bits: seq<Bit>)
    ensures bits == ToBits(input)
    ensures |bits| == 8 * |input|
  {
    bits := [];
    for i := 0 to |input|
      invariant bits == ToBits(input[..i])
    {
      bits := PushByteBits(bits, input[i]);
      ToBitsAppend(input[..i], input[i]);
      assert input[..i + 1] == input[..i] + [input[i]];
    }
    assert input[..|input|] == input;
    ToBitsLength(input);
  }
}
