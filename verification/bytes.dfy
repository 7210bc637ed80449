/** Bytes as the socket and the pipes carry them, big-endian integers and
    the XOR used by WebSocket masking. */
module Bytes {

  /** An octet; the C code stores these in `char` buffers. */
  type byte = x: int | 0 <= x < 256

  datatype Option<+T> = None | Some(value: T)

  function Min(a: int, b: int): int { if a <= b then a else b }

  /** The bytes of an ASCII string literal. */
  function AsBytes(s: string): (r: seq<byte>)
    ensures |r| == |s|
  {
    seq(|s|, i requires 0 <= i < |s| => s[i] as int % 256)
  }

  /** Concatenation is associative (stated once, on plain values, so that
      proofs about recursive functions need not rediscover it). */
  lemma ConcatAssoc<T>(a: seq<T>, b: seq<T>, c: seq<T>)
    ensures a + b + c == a + (b + c)
  {
  }

  /** The concatenation of a list of byte strings. */
  function Flatten(chunks: seq<seq<byte>>): seq<byte>
  {
    if chunks == [] then [] else chunks[0] + Flatten(chunks[1..])
  }

  lemma {:induction false} FlattenAppend(a: seq<seq<byte>>, b: seq<seq<byte>>)
    ensures Flatten(a + b) == Flatten(a) + Flatten(b)
  {
    if a == [] {
      assert a + b == b;
    } else {
      assert (a + b)[0] == a[0] && (a + b)[1..] == a[1..] + b;
      FlattenAppend(a[1..], b);
    }
  }

  /** 256^k, the number of values k bytes can hold. */
  function Pow256(k: nat): (r: nat)
    ensures r >= 1
  {
    if k == 0 then 1 else 256 * Pow256(k - 1)
  }

  /** The `width` low-order bytes of `n`, most significant first
      (network order, as the frame writer stores extended lengths). */
  function BigEndian(n: nat, width: nat): (r: seq<byte>)
    ensures |r| == width
  {
    if width == 0 then [] else BigEndian(n / 256, width - 1) + [n % 256]
  }

  /** The unsigned number whose big-endian bytes are `s`. */
  function FromBigEndian(s: seq<byte>): (r: nat)
    ensures r < Pow256(|s|)
    decreases |s|
  {
    if s == [] then 0
    else
      var hi := FromBigEndian(s[..|s| - 1]);
      assert hi * 256 <= (Pow256(|s| - 1) - 1) * 256;
      hi * 256 + s[|s| - 1]
  }

  /** Encoding a number that fits in `width` bytes and decoding it gives it back. */
  lemma {:induction false} BigEndianRoundTrip(n: nat, width: nat)
    requires n < Pow256(width)
    ensures FromBigEndian(BigEndian(n, width)) == n
  {
    if width > 0 {
      var s := BigEndian(n, width);
      assert s[..width - 1] == BigEndian(n / 256, width - 1);
      assert n / 256 < Pow256(width - 1);
      BigEndianRoundTrip(n / 256, width - 1);
    }
  }

  /** The other direction: every byte string is the encoding of its value. */
  lemma {:induction false} FromBigEndianRoundTrip(s: seq<byte>)
    ensures BigEndian(FromBigEndian(s), |s|) == s
  {
    if s != [] {
      var init := s[..|s| - 1];
      var v := FromBigEndian(s);
      assert v / 256 == FromBigEndian(init) && v % 256 == s[|s| - 1];
      FromBigEndianRoundTrip(init);
      assert s == init + [s[|s| - 1]];
    }
  }

  function Pow2(n: nat): (r: nat)
    ensures r >= 1
  {
    if n == 0 then 1 else 2 * Pow2(n - 1)
  }

  /** Exclusive or of the `n` low-order bits of `a` and `b`. */
  function XorLow(a: nat, b: nat, n: nat): (r: nat)
    ensures r < Pow2(n)
  {
    if n == 0 then 0
    else (if a % 2 == b % 2 then 0 else 1) + 2 * XorLow(a / 2, b / 2, n - 1)
  }

  /** Bitwise exclusive or of two octets (C's `^` on bytes). */
  function Xor(a: byte, b: byte): byte
  {
    XorLow(a, b, 8)
  }

  lemma {:induction false} XorLowTwice(a: nat, b: nat, n: nat)
    requires a < Pow2(n)
    ensures XorLow(XorLow(a, b, n), b, n) == a
  {
    if n > 0 {
      var c := XorLow(a, b, n);
      assert c % 2 == (if a % 2 == b % 2 then 0 else 1);
      assert c / 2 == XorLow(a / 2, b / 2, n - 1);
      XorLowTwice(a / 2, b / 2, n - 1);
    }
  }

  lemma {:induction false} XorLowZero(a: nat, n: nat)
    requires a < Pow2(n)
    ensures XorLow(a, 0, n) == a
  {
    if n > 0 {
      XorLowZero(a / 2, n - 1);
    }
  }

  /** XOR with the same key twice is the identity. */
  lemma XorTwice(a: byte, k: byte)
    ensures Xor(Xor(a, k), k) == a
  {
    XorLowTwice(a, k, 8);
  }

  /** XOR with zero is the identity. */
  lemma XorZero(a: byte)
    ensures Xor(a, 0) == a
  {
    XorLowZero(a, 8);
  }
}
