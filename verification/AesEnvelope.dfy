/** The encrypted message envelope of `wechat/internal/util/aes_crypto.go`.

    The AES block transformation is any permutation of 16-byte blocks given with its inverse.
    What is modelled in full is everything around it: the frame
    `random(16) + length(4) + message + appId`, the 32-byte PKCS#7 padding (section 6.3 of RFC 5652)
    and cipher block chaining (section 6.2 of NIST SP 800-38A), in place over byte buffers. */
module AesEnvelope {
  import opened Strings

  newtype byte = x: int | 0 <= x < 256

  type Bytes = seq<byte>

  /** A keyed block cipher; `iv` is the first 16 bytes of the AES key. */
  datatype Cipher = Cipher(enc: Bytes -> Bytes, dec: Bytes -> Bytes, iv: Bytes) {
    ghost predicate Valid() {
      && |iv| == 16
      && (forall b: Bytes {:trigger enc(b)} :: |b| == 16 ==> |enc(b)| == 16 && dec(enc(b)) == b)
      && (forall b: Bytes {:trigger dec(b)} :: |b| == 16 ==> |dec(b)| == 16 && enc(dec(b)) == b)
    }
  }

  datatype Parts = Parts(random: Bytes, message: Bytes, appId: Bytes)

  // ---------------------------------------------------------------- chaining

  /** Exclusive or of two numbers of `bits` bits, the lowest bit last. */
  function XorBits(a: nat, b: nat, bits: nat): (r: nat)
    ensures r < Pow2(bits)
  {
    if bits == 0 then 0 else 2 * XorBits(a / 2, b / 2, bits - 1) + (if a % 2 == b % 2 then 0 else 1)
  }

  function Pow2(n: nat): (p: nat)
    ensures p > 0
  {
    if n == 0 then 1 else 2 * Pow2(n - 1)
  }

  lemma {:induction false} XorBitsTwice(a: nat, b: nat, bits: nat)
    requires a < Pow2(bits)
    ensures XorBits(XorBits(a, b, bits), b, bits) == a
  {
    if bits == 0 {
    } else {
      assert XorBits(a, b, bits) / 2 == XorBits(a / 2, b / 2, bits - 1);
      XorBitsTwice(a / 2, b / 2, bits - 1);
    }
  }

  function Xor(a: byte, b: byte): byte {
    assert Pow2(8) == 256 by { assert Pow2(4) == 16; assert Pow2(6) == 64; }
    XorBits(a as int, b as int, 8) as byte
  }

  lemma XorTwice(a: byte, b: byte)
    ensures Xor(Xor(a, b), b) == a
  {
    assert Pow2(8) == 256 by { assert Pow2(4) == 16; assert Pow2(6) == 64; }
    XorBitsTwice(a as int, b as int, 8);
  }

  /** The i-th bit of a number, the lowest one first. */
  predicate Bit(n: nat, i: nat) {
    if i == 0 then n % 2 == 1 else Bit(n / 2, i - 1)
  }

  predicate BitOf(b: byte, i: nat) {
    Bit(b as int, i)
  }

  /** The bits of a byte have the weights 1, 2, 4 and so on. */
  lemma BitWeights(b: byte)
    ensures var n := b as int;
            && (BitOf(b, 0) <==> n % 2 == 1) && (BitOf(b, 1) <==> n / 2 % 2 == 1)
            && (BitOf(b, 2) <==> n / 4 % 2 == 1) && (BitOf(b, 3) <==> n / 8 % 2 == 1)
            && (BitOf(b, 4) <==> n / 16 % 2 == 1) && (BitOf(b, 5) <==> n / 32 % 2 == 1)
            && (BitOf(b, 6) <==> n / 64 % 2 == 1) && (BitOf(b, 7) <==> n / 128 % 2 == 1)
  {
    var n := b as int;
    assert n / 2 / 2 == n / 4 && n / 4 / 2 == n / 8 && n / 8 / 2 == n / 16;
    assert n / 16 / 2 == n / 32 && n / 32 / 2 == n / 64 && n / 64 / 2 == n / 128;
    UnfoldBit(n, 1);
    UnfoldBit(n, 2);
    UnfoldBit(n, 3);
    UnfoldBit(n, 4);
    UnfoldBit(n, 5);
    UnfoldBit(n, 6);
    UnfoldBit(n, 7);
  }

  lemma UnfoldBit(n: nat, i: nat)
    ensures i >= 1 ==> Bit(n, i) == Bit(n / 2, i - 1)
    ensures i >= 2 ==> Bit(n, i) == Bit(n / 2 / 2, i - 2)
    ensures i >= 3 ==> Bit(n, i) == Bit(n / 2 / 2 / 2, i - 3)
    ensures i >= 4 ==> Bit(n, i) == Bit(n / 2 / 2 / 2 / 2, i - 4)
    ensures i >= 5 ==> Bit(n, i) == Bit(n / 2 / 2 / 2 / 2 / 2, i - 5)
    ensures i >= 6 ==> Bit(n, i) == Bit(n / 2 / 2 / 2 / 2 / 2 / 2, i - 6)
    ensures i >= 7 ==> Bit(n, i) == Bit(n / 2 / 2 / 2 / 2 / 2 / 2 / 2, i - 7)
  {}

  lemma {:induction false} XorBitsAt(a: nat, b: nat, bits: nat, i: nat)
    requires i < bits
    ensures Bit(XorBits(a, b, bits), i) <==> Bit(a, i) != Bit(b, i)
  {
    var r := XorBits(a, b, bits);
    assert r / 2 == XorBits(a / 2, b / 2, bits - 1);
    if i == 0 {
    } else {
      XorBitsAt(a / 2, b / 2, bits - 1, i - 1);
    }
  }

  /** A bit of the result is set exactly when the two bytes differ in it. */
  lemma XorAt(a: byte, b: byte, i: nat)
    requires i < 8
    ensures BitOf(Xor(a, b), i) <==> BitOf(a, i) != BitOf(b, i)
  {
    XorBitsAt(a as int, b as int, 8, i);
  }

  lemma {:induction false} SameBits(a: nat, b: nat, bits: nat)
    requires a < Pow2(bits) && b < Pow2(bits) && forall i :: 0 <= i < bits ==> (Bit(a, i) <==> Bit(b, i))
    ensures a == b
  {
    if bits == 0 {
    } else {
      assert Bit(a, 0) <==> Bit(b, 0);
      forall i | 0 <= i < bits - 1 ensures Bit(a / 2, i) <==> Bit(b / 2, i) {
        assert Bit(a, i + 1) <==> Bit(b, i + 1);
      }
      SameBits(a / 2, b / 2, bits - 1);
    }
  }

  /** `r` is the exclusive or of two blocks, bit by bit. */
  ghost predicate IsXor(r: Bytes, a: Bytes, b: Bytes) {
    |r| == |a| == |b| && forall k :: 0 <= k < |r| ==> IsXorByte(r[k], a[k], b[k])
  }

  ghost predicate IsXorByte(r: byte, a: byte, b: byte) {
    forall i :: 0 <= i < 8 ==> (BitOf(r, i) <==> BitOf(a, i) != BitOf(b, i))
  }

  lemma XorByBits(r: Bytes, a: Bytes, b: Bytes)
    requires |a| == |b|
    ensures IsXor(r, a, b) <==> r == XorBlock(a, b)
  {
    var x := XorBlock(a, b);
    forall k | 0 <= k < |a| ensures IsXorByte(x[k], a[k], b[k]) {
      forall i | 0 <= i < 8 ensures BitOf(x[k], i) <==> BitOf(a[k], i) != BitOf(b[k], i) {
        XorAt(a[k], b[k], i);
      }
    }
    if IsXor(r, a, b) {
      forall k | 0 <= k < |a| ensures r[k] == x[k] {
        assert IsXorByte(r[k], a[k], b[k]);
        OneByte(r[k], x[k]);
      }
    }
  }

  lemma OneByte(a: byte, b: byte)
    requires forall i :: 0 <= i < 8 ==> (BitOf(a, i) <==> BitOf(b, i))
    ensures a == b
  {
    var m: nat, n: nat := a as int, b as int;
    forall i | 0 <= i < 8 ensures Bit(m, i) <==> Bit(n, i) {
      assert BitOf(a, i) <==> BitOf(b, i);
    }
    assert Pow2(8) == 256 by { assert Pow2(4) == 16; assert Pow2(6) == 64; }
    SameBits(m, n, 8);
  }

  function XorBlock(a: Bytes, b: Bytes): (r: Bytes)
    requires |a| == |b|
    ensures |r| == |a|
  {
    seq(|a|, i requires 0 <= i < |a| => Xor(a[i], b[i]))
  }

  lemma XorBlockTwice(a: Bytes, b: Bytes)
    requires |a| == |b|
    ensures XorBlock(XorBlock(a, b), b) == a
  {
    forall i | 0 <= i < |a| ensures XorBlock(XorBlock(a, b), b)[i] == a[i] {
      XorTwice(a[i], b[i]);
    }
  }

  /** Chained encryption of the whole blocks of `s`. (The buffers below hold nothing but whole blocks.) */
  ghost function CbcEncrypt(c: Cipher, prev: Bytes, s: Bytes): (r: Bytes)
    requires c.Valid() && |prev| == 16
    ensures |r| == |s|
    decreases |s|
  {
    if |s| < 16 then s
    else
      var block := c.enc(XorBlock(s[..16], prev));
      block + CbcEncrypt(c, block, s[16..])
  }

  ghost function CbcDecrypt(c: Cipher, prev: Bytes, s: Bytes): (r: Bytes)
    requires c.Valid() && |prev| == 16
    ensures |r| == |s|
    decreases |s|
  {
    if |s| < 16 then s
    else XorBlock(c.dec(s[..16]), prev) + CbcDecrypt(c, s[..16], s[16..])
  }

  /** Chained decryption undoes chained encryption. */
  lemma {:induction false} DecryptUndoesEncrypt(c: Cipher, prev: Bytes, s: Bytes)
    requires c.Valid() && |prev| == 16
    ensures CbcDecrypt(c, prev, CbcEncrypt(c, prev, s)) == s
    decreases |s|
  {
    if |s| < 16 {
    } else {
      var block := c.enc(XorBlock(s[..16], prev));
      var rest := CbcEncrypt(c, block, s[16..]);
      assert (block + rest)[..16] == block && (block + rest)[16..] == rest;
      XorBlockTwice(s[..16], prev);
      DecryptUndoesEncrypt(c, block, s[16..]);
    }
  }

  /** Chained encryption undoes chained decryption. */
  lemma {:induction false} EncryptUndoesDecrypt(c: Cipher, prev: Bytes, s: Bytes)
    requires c.Valid() && |prev| == 16
    ensures CbcEncrypt(c, prev, CbcDecrypt(c, prev, s)) == s
    decreases |s|
  {
    if |s| < 16 {
    } else {
      var plain := c.dec(s[..16]);
      var rest := CbcDecrypt(c, s[..16], s[16..]);
      var p := XorBlock(plain, prev) + rest;
      assert p[..16] == XorBlock(plain, prev) && p[16..] == rest;
      XorBlockTwice(plain, prev);
      EncryptUndoesDecrypt(c, s[..16], s[16..]);
    }
  }

  function Block(s: Bytes, j: nat): (b: Bytes)
    requires 16 * j + 16 <= |s|
    ensures |b| == 16
  {
    s[16 * j..16 * j + 16]
  }

  /** Every block of `out` is the encryption of the block of `s` at its place, xor-ed with the block of `out`
      before it, or with `prev` if it is the first. */
  ghost predicate Chained(c: Cipher, prev: Bytes, s: Bytes, out: Bytes) {
    && |out| == |s| && |s| % 16 == 0
    && forall j :: 0 <= j < |s| / 16 ==> ChainedAt(c, prev, s, out, j)
  }

  ghost predicate ChainedAt(c: Cipher, prev: Bytes, s: Bytes, out: Bytes, j: nat)
    requires |out| == |s| && 16 * j + 16 <= |s|
  {
    exists x :: IsXor(x, Block(s, j), if j == 0 then prev else Block(out, j - 1)) && Block(out, j) == c.enc(x)
  }

  lemma FirstBlock(c: Cipher, prev: Bytes, s: Bytes)
    requires c.Valid() && |prev| == 16 && |s| >= 16
    ensures var out, x := CbcEncrypt(c, prev, s), XorBlock(Block(s, 0), prev);
            && Block(out, 0) == c.enc(x) && IsXor(x, Block(s, 0), prev)
            && out[16..] == CbcEncrypt(c, Block(out, 0), s[16..])
  {
    var x := XorBlock(s[..16], prev);
    XorByBits(x, s[..16], prev);
    assert Block(s, 0) == s[..16];
    var out := CbcEncrypt(c, prev, s);
    assert out == c.enc(x) + CbcEncrypt(c, c.enc(x), s[16..]);
    hide CbcEncrypt, XorBlock;
    assert out[..16] == c.enc(x) && out[16..] == CbcEncrypt(c, c.enc(x), s[16..]);
  }

  lemma BlockOfRest(s: Bytes, j: nat)
    requires 16 * j + 32 <= |s|
    ensures Block(s, j + 1) == Block(s[16..], j)
  {}

  lemma {:induction false} EncryptChainsAt(c: Cipher, prev: Bytes, s: Bytes, j: nat)
    requires c.Valid() && |prev| == 16 && 16 * j + 16 <= |s|
    ensures ChainedAt(c, prev, s, CbcEncrypt(c, prev, s), j)
    decreases j
  {
    var out := CbcEncrypt(c, prev, s);
    FirstBlock(c, prev, s);
    hide CbcEncrypt, XorBlock, Cipher.Valid, IsXor;
    if j == 0 {
    } else {
      var rest, first := out[16..], Block(out, 0);
      EncryptChainsAt(c, first, s[16..], j - 1);
      BlockOfRest(s, j - 1);
      BlockOfRest(out, j - 1);
      if j > 1 { BlockOfRest(out, j - 2); }
      var x :| IsXor(x, Block(s[16..], j - 1), if j == 1 then first else Block(rest, j - 2))
               && Block(rest, j - 1) == c.enc(x);
      assert IsXor(x, Block(s, j), Block(out, j - 1)) && Block(out, j) == c.enc(x);
    }
  }

  lemma SameBlocks(a: Bytes, b: Bytes)
    requires |a| == |b| && |a| % 16 == 0
    requires forall j :: 0 <= j < |a| / 16 ==> Block(a, j) == Block(b, j)
    ensures a == b
  {
    forall i | 0 <= i < |a| ensures a[i] == b[i] {
      var j := i / 16;
      assert a[i] == Block(a, j)[i - 16 * j] && b[i] == Block(b, j)[i - 16 * j];
    }
  }

  lemma {:induction false} ChainedBlock(c: Cipher, prev: Bytes, s: Bytes, one: Bytes, other: Bytes, j: nat)
    requires Chained(c, prev, s, one) && Chained(c, prev, s, other) && |prev| == 16 && 16 * j + 16 <= |s|
    ensures Block(one, j) == Block(other, j)
    decreases j
  {
    if j == 0 {
    } else {
      ChainedBlock(c, prev, s, one, other, j - 1);
    }
    assert ChainedAt(c, prev, s, one, j) && ChainedAt(c, prev, s, other, j);
    var before := if j == 0 then prev else Block(one, j - 1);
    var x :| IsXor(x, Block(s, j), before) && Block(one, j) == c.enc(x);
    var y :| IsXor(y, Block(s, j), before) && Block(other, j) == c.enc(y);
    XorByBits(x, Block(s, j), before);
    XorByBits(y, Block(s, j), before);
  }

  /** Chained encryption is what the blocks say, and nothing else is. */
  lemma ChainedExactly(c: Cipher, s: Bytes, out: Bytes)
    requires c.Valid() && |s| % 16 == 0
    ensures Chained(c, c.iv, s, out) <==> out == CbcEncrypt(c, c.iv, s)
  {
    var e := CbcEncrypt(c, c.iv, s);
    forall j | 0 <= j < |s| / 16 ensures ChainedAt(c, c.iv, s, e, j) {
      EncryptChainsAt(c, c.iv, s, j);
    }
    if Chained(c, c.iv, s, out) {
      forall j | 0 <= j < |s| / 16 ensures Block(out, j) == Block(e, j) {
        ChainedBlock(c, c.iv, s, out, e, j);
      }
      SameBlocks(out, e);
    }
  }

  /** Go's `copy` into a buffer that is long enough. */
  method Copy(dst: array<byte>, off: nat, src: Bytes)
    requires off + |src| <= dst.Length
    modifies dst
    ensures dst[..off + |src|] == old(dst[..off]) + src
    ensures dst[off + |src|..] == old(dst[off + |src|..])
  {
    forall k | 0 <= k < |src| {
      dst[off + k] := src[k];
    }
  }

  lemma EncryptOneBlock(c: Cipher, prev: Bytes, done: Bytes, todo: Bytes)
    requires c.Valid() && |prev| == 16 && |todo| >= 16
    ensures var block := c.enc(XorBlock(todo[..16], prev));
            done + CbcEncrypt(c, prev, todo) == done + block + CbcEncrypt(c, block, todo[16..])
  {}

  method EncryptBlocks(c: Cipher, a: array<byte>)
    requires c.Valid() && a.Length % 16 == 0
    modifies a
    ensures a[..] == CbcEncrypt(c, c.iv, old(a[..]))
  {
    hide CbcEncrypt, XorBlock;
    var prev, i := c.iv, 0;
    while i < a.Length
      invariant 0 <= i <= a.Length && i % 16 == 0 && |prev| == 16
      invariant a[i..] == old(a[i..])
      invariant CbcEncrypt(c, c.iv, old(a[..])) == a[..i] + CbcEncrypt(c, prev, old(a[i..]))
    {
      ghost var done, todo := a[..i], a[i..];
      var block := c.enc(XorBlock(a[i..i + 16], prev));
      assert todo[..16] == a[i..i + 16] && todo[16..] == old(a[i + 16..]);
      EncryptOneBlock(c, prev, done, todo);
      Copy(a, i, block);
      prev, i := block, i + 16;
    }
  }

  lemma DecryptOneBlock(c: Cipher, prev: Bytes, done: Bytes, todo: Bytes)
    requires c.Valid() && |prev| == 16 && |todo| >= 16
    ensures done + CbcDecrypt(c, prev, todo)
            == done + XorBlock(c.dec(todo[..16]), prev) + CbcDecrypt(c, todo[..16], todo[16..])
  {}

  lemma SliceAt(s: Bytes, i: nat)
    requires i + 16 <= |s|
    ensures s[i..][..16] == s[i..i + 16] && s[i..][16..] == s[i + 16..]
  {}

  method DecryptBlocks(c: Cipher, dst: array<byte>, src: Bytes)
    requires c.Valid() && dst.Length == |src| && |src| % 16 == 0
    modifies dst
    ensures dst[..] == CbcDecrypt(c, c.iv, src)
  {
    hide CbcDecrypt, XorBlock;
    var prev, i := c.iv, 0;
    while i < |src|
      invariant 0 <= i <= |src| && i % 16 == 0 && |prev| == 16
      invariant CbcDecrypt(c, c.iv, src) == dst[..i] + CbcDecrypt(c, prev, src[i..])
    {
      ghost var done, todo := dst[..i], src[i..];
      var block := src[i..i + 16];
      SliceAt(src, i);
      DecryptOneBlock(c, prev, done, todo);
      var plain := XorBlock(c.dec(block), prev);
      Copy(dst, i, plain);
      prev, i := block, i + 16;
    }
  }

  // ---------------------------------------------------------------- framing and padding

  const WORD := 0x1_0000_0000

  /** Four bytes in network byte order: each shift by 8 bits is a division by 256, each truncation to a
      byte a remainder. */
  function BigEndian(n: nat): (b: Bytes)
    ensures |b| == 4
  {
    [(n / 256 / 256 / 256 % 256) as byte, (n / 256 / 256 % 256) as byte, (n / 256 % 256) as byte, (n % 256) as byte]
  }

  /** The four shifted bytes have no bit in common, so `|` adds them. */
  function DecodeNetworkByteOrder(b: Bytes): (n: nat)
    requires |b| == 4
    ensures n < WORD
  {
    b[0] as int * 0x100_0000 + b[1] as int * 0x1_0000 + b[2] as int * 0x100 + b[3] as int
  }

  lemma DecodeBigEndian(n: nat)
    ensures DecodeNetworkByteOrder(BigEndian(n)) == n % WORD
  {
    var q := n / 256;
    var r := q / 256;
    var s := r / 256;
    var low := (s % 256) * 0x100_0000 + (r % 256) * 0x1_0000 + (q % 256) * 0x100 + n % 256;
    assert n == (s / 256) * WORD + low;
    Remainder(n, s / 256, low);
  }

  lemma Remainder(n: nat, k: nat, low: nat)
    requires n == k * WORD + low && low < WORD
    ensures n % WORD == low
  {}

  lemma LowByte(high: nat, low: byte)
    ensures (256 * high + low as int) / 256 == high && (256 * high + low as int) % 256 == low as int
  {}

  lemma BigEndianDecode(b: Bytes)
    requires |b| == 4
    ensures BigEndian(DecodeNetworkByteOrder(b)) == b
  {
    var r := b[0] as int * 256 + b[1] as int;
    var q := r * 256 + b[2] as int;
    LowByte(0, b[0]);
    LowByte(b[0] as int, b[1]);
    LowByte(r, b[2]);
    LowByte(q, b[3]);
    assert DecodeNetworkByteOrder(b) == 256 * q + b[3] as int;
  }

  method EncodeNetworkByteOrder(b: array<byte>, off: nat, n: nat)
    requires off + 4 <= b.Length && n < WORD
    modifies b
    ensures b[..off + 4] == old(b[..off]) + BigEndian(n)
    ensures b[off + 4..] == old(b[off + 4..])
  {
    b[off] := (n / 256 / 256 / 256 % 256) as byte;
    b[off + 1] := (n / 256 / 256 % 256) as byte;
    b[off + 2] := (n / 256 % 256) as byte;
    b[off + 3] := (n % 256) as byte;
  }

  function Zeros(n: nat): (z: Bytes)
    ensures |z| == n
  {
    seq(n, _ => 0)
  }

  /** The 16 bytes that `copy(plaintext[:16], random)` leaves in a zeroed buffer. */
  function Random16(random: Bytes): (r: Bytes)
    ensures |r| == 16
    ensures |random| == 16 ==> r == random
    ensures forall i :: 0 <= i < 16 ==> r[i] == if i < |random| then random[i] else 0
  {
    if |random| < 16 then random + Zeros(16 - |random|) else random[..16]
  }

  function Content(random: Bytes, message: Bytes, appId: Bytes): (r: Bytes)
    ensures |r| == 20 + |message| + |appId|
  {
    Random16(random) + BigEndian(|message| % WORD) + (message + appId)
  }

  function Padding(contentLen: nat): (p: Bytes)
    ensures |p| == AmountToPad(contentLen)
    ensures forall i :: 0 <= i < |p| ==> p[i] as int == |p|
  {
    seq(AmountToPad(contentLen), _ => AmountToPad(contentLen) as byte)
  }

  function AmountToPad(contentLen: nat): (n: nat)
    ensures 1 <= n <= 32 && (contentLen + n) % 32 == 0
  {
    32 - contentLen % 32
  }

  /** Padded to 32 bytes, a buffer is a whole number of 16-byte AES blocks. */
  lemma WholeBlocks(n: nat)
    requires n % 32 == 0
    ensures n % 16 == 0
  {}

  /** The layout of a buffer before encryption: 16 random bytes, zeros if there are fewer; the length of the
      message modulo 2^32, its highest byte first; the message; the appId; and from 1 to 32 bytes that say how
      many they are, up to a multiple of 32. */
  ghost predicate Layout(p: Bytes, random: Bytes, message: Bytes, appId: Bytes) {
    var end := 20 + |message| + |appId|;
    && |p| % 32 == 0 && end < |p| <= end + 32
    && (forall i :: 0 <= i < 16 ==> p[i] == if i < |random| then random[i] else 0)
    && p[16] as int * 16777216 + p[17] as int * 65536 + p[18] as int * 256 + p[19] as int == |message| % 4294967296
    && p[20..20 + |message|] == message && p[20 + |message|..end] == appId
    && forall i :: end <= i < |p| ==> p[i] as int == |p| - end
  }

  lemma LaidOut(random: Bytes, message: Bytes, appId: Bytes)
    ensures var content := Content(random, message, appId);
            Layout(content + Padding(|content|), random, message, appId)
  {
    var content := Content(random, message, appId);
    var padding := Padding(|content|);
    var p := content + padding;
    var n := |message| % WORD;
    DecodeBigEndian(n);
    var head, body := Random16(random) + BigEndian(n), message + appId;
    assert content == head + body;
    hide BigEndian, Padding;
    assert p[16] == BigEndian(n)[0] && p[17] == BigEndian(n)[1] && p[18] == BigEndian(n)[2] && p[19] == BigEndian(n)[3];
    assert p[20..20 + |message|] == message && p[20 + |message|..|content|] == appId;
    assert forall i :: 0 <= i < 16 ==> p[i] == Random16(random)[i];
    assert forall i :: |content| <= i < |p| ==> p[i] == padding[i - |content|];
  }

  ghost function Encrypted(c: Cipher, random: Bytes, message: Bytes, appId: Bytes): Bytes
    requires c.Valid()
  {
    var content := Content(random, message, appId);
    CbcEncrypt(c, c.iv, content + Padding(|content|))
  }

  /** What encryption gives, block by block. */
  lemma EncryptedInBlocks(c: Cipher, random: Bytes, message: Bytes, appId: Bytes)
    requires c.Valid()
    ensures exists p :: Layout(p, random, message, appId) && Chained(c, c.iv, p, Encrypted(c, random, message, appId))
  {
    var content := Content(random, message, appId);
    var p := content + Padding(|content|);
    LaidOut(random, message, appId);
    assert |p| % 32 == 0;
    WholeBlocks(|p|);
    ChainedExactly(c, p, CbcEncrypt(c, c.iv, p));
    hide Layout, Content, Padding, Chained, CbcEncrypt;
    assert Layout(p, random, message, appId) && Chained(c, c.iv, p, Encrypted(c, random, message, appId));
  }

  /** The padding length that the last byte of a buffer announces. */
  function LastByte(p: Bytes): int
    requires p != []
  {
    p[|p| - 1] as int
  }

  /** `q` is a frame around exactly these parts: a random block, a message that fits its length field,
      and an appId that is not empty. */
  ghost predicate Framed(q: Bytes, parts: Parts) {
    && |parts.random| == 16 && |parts.message| < WORD && parts.appId != []
    && q == parts.random + BigEndian(|parts.message|) + (parts.message + parts.appId)
  }

  /** What `AESDecryptMsg` reads out of a decrypted buffer once the padding is gone. */
  function Unframe(q: Bytes): (r: Result<Parts>) {
    if |q| <= 20 then Err("plaintext too short") else
    var n := DecodeNetworkByteOrder(q[16..20]);
    if |q| <= 20 + n then Err("msg length too large") else
    Ok(Parts(q[..16], q[20..20 + n], q[20 + n..]))
  }

  lemma UnframeSound(q: Bytes)
    requires Unframe(q).Ok?
    ensures Framed(q, Unframe(q).value)
  {
    BigEndianDecode(q[16..20]);
    var got := Unframe(q).value;
    assert got.message + got.appId == q[20..];
    assert q == q[..16] + q[16..20] + q[20..];
  }

  lemma UnframeComplete(q: Bytes, parts: Parts)
    requires Framed(q, parts)
    ensures Unframe(q) == Ok(parts)
  {
    hide BigEndian, DecodeNetworkByteOrder;
    var n, body := |parts.message|, parts.message + parts.appId;
    assert q[..16] == parts.random && q[16..20] == BigEndian(n) && q[20..] == body;
    DecodeBigEndian(n);
    assert q[20..20 + n] == body[..n] && q[20 + n..] == body[n..];
  }

  /** A buffer is accepted exactly when it is a frame, and yields the parts it frames. */
  lemma UnframeExact(q: Bytes, parts: Parts)
    ensures Unframe(q) == Ok(parts) <==> Framed(q, parts)
  {
    if Unframe(q).Ok? {
      UnframeSound(q);
    }
    if Framed(q, parts) {
      UnframeComplete(q, parts);
    }
  }

  /** What reading back a frame built around any message and appId finds. */
  lemma UnframeContent(random: Bytes, message: Bytes, appId: Bytes)
    ensures var n, body := |message| % WORD, message + appId;
            Unframe(Content(random, message, appId)) ==
              if body == [] then Err("plaintext too short")
              else if |body| <= n then Err("msg length too large")
              else Ok(Parts(Random16(random), body[..n], body[n..]))
  {
    hide BigEndian, DecodeNetworkByteOrder, Random16;
    var n, body := |message| % WORD, message + appId;
    var q := Content(random, message, appId);
    assert q[..16] == Random16(random) && q[16..20] == BigEndian(n) && q[20..] == body;
    DecodeBigEndian(n);
    if |body| > n {
      assert q[20..20 + n] == body[..n] && q[20 + n..] == body[n..];
    }
  }

  ghost function Decrypted(c: Cipher, ciphertext: Bytes): Result<Parts>
    requires c.Valid()
  {
    if |ciphertext| < 32 then Err("the length of ciphertext too short")
    else if |ciphertext| % 32 != 0 then Err("ciphertext is not a multiple of the block size")
    else
      var p := CbcDecrypt(c, c.iv, ciphertext);
      if LastByte(p) < 1 || LastByte(p) > 32 then Err("the amount to pad is incorrect")
      else Unframe(p[..|p| - LastByte(p)])
  }

  // ---------------------------------------------------------------- the two operations

  method AESEncryptMsg(random: Bytes, message: Bytes, appId: Bytes, c: Cipher) returns (ciphertext: array<byte>)
    requires c.Valid()
    ensures fresh(ciphertext)
    ensures ciphertext[..] == Encrypted(c, random, message, appId)
    ensures exists p :: Layout(p, random, message, appId) && Chained(c, c.iv, p, ciphertext[..])
  {
    var contentLen := 20 + |message| + |appId|;
    var plaintextLen := contentLen + AmountToPad(contentLen);
    ciphertext := new byte[plaintextLen](_ => 0);
    Assemble(ciphertext, random, message, appId);
    Pad(ciphertext, contentLen);
    WholeBlocks(plaintextLen);
    EncryptBlocks(c, ciphertext);
    EncryptedInBlocks(c, random, message, appId);
  }

  method Pad(buffer: array<byte>, contentLen: nat)
    requires buffer.Length == contentLen + AmountToPad(contentLen)
    modifies buffer
    ensures buffer[..] == old(buffer[..contentLen]) + Padding(contentLen)
  {
    var i := contentLen;
    while i < buffer.Length
      invariant contentLen <= i <= buffer.Length
      invariant buffer[..contentLen] == old(buffer[..contentLen])
      invariant forall k :: contentLen <= k < i ==> buffer[k] as int == AmountToPad(contentLen)
    {
      buffer[i] := AmountToPad(contentLen) as byte;
      i := i + 1;
    }
    assert buffer[contentLen..] == Padding(contentLen);
    assert buffer[..] == buffer[..contentLen] + buffer[contentLen..];
  }

  /** The four copies into the zeroed buffer. */
  method Assemble(buffer: array<byte>, random: Bytes, message: Bytes, appId: Bytes)
    requires buffer.Length > 20 + |message| + |appId|
    requires forall k :: 0 <= k < buffer.Length ==> buffer[k] == 0
    modifies buffer
    ensures buffer[..20 + |message| + |appId|] == Content(random, message, appId)
  {
    hide BigEndian, Random16;
    CopyRandom(buffer, random);
    EncodeNetworkByteOrder(buffer, 16, |message| % WORD);
    Copy(buffer, 20, message);
    Copy(buffer, 20 + |message|, appId);
    assert Content(random, message, appId)
           == Random16(random) + BigEndian(|message| % WORD) + message + appId;
  }

  /** `copy(plaintext[:16], random)`. */
  method CopyRandom(buffer: array<byte>, random: Bytes)
    requires buffer.Length >= 16
    requires forall k :: 0 <= k < buffer.Length ==> buffer[k] == 0
    modifies buffer
    ensures buffer[..16] == Random16(random)
  {
    var n := if |random| < 16 then |random| else 16;
    ghost var zeros := buffer[n..];
    Copy(buffer, 0, random[..n]);
    assert buffer[..n] == random[..n];
    assert forall k :: n <= k < 16 ==> buffer[k] == buffer[n..][k - n] == zeros[k - n];
  }

  /** Every slice below stays in bounds for every ciphertext; that is what lets this method verify. */
  method AESDecryptMsg(ciphertext: array<byte>, c: Cipher) returns (r: Result<Parts>)
    requires c.Valid()
    ensures r == Decrypted(c, ciphertext[..])
  {
    if ciphertext.Length < 32 {
      return Err("the length of ciphertext too short");
    }
    if ciphertext.Length % 32 != 0 {
      return Err("ciphertext is not a multiple of the block size");
    }
    var plaintext := new byte[ciphertext.Length](_ => 0);
    WholeBlocks(ciphertext.Length);
    DecryptBlocks(c, plaintext, ciphertext[..]);

    var amountToPad := plaintext[plaintext.Length - 1] as int;
    if amountToPad < 1 || amountToPad > 32 {
      return Err("the amount to pad is incorrect");
    }
    var content := plaintext[..plaintext.Length - amountToPad];
    assert content == plaintext[..][..plaintext.Length - amountToPad];
    hide CbcDecrypt, Unframe, Cipher.Valid;
    r := TakeApart(content);
  }

  /** The slices of the plaintext once the padding is gone. */
  method TakeApart(content: Bytes) returns (r: Result<Parts>)
    ensures r == Unframe(content)
  {
    hide DecodeNetworkByteOrder;
    if |content| <= 20 {
      return Err("plaintext too short");
    }
    var rawXMLMsgLen := DecodeNetworkByteOrder(content[16..20]);
    var appIdOffset := 20 + rawXMLMsgLen;
    if |content| <= appIdOffset {
      return Err("msg length too large");
    }
    return Ok(Parts(content[..16], content[20..appIdOffset], content[appIdOffset..]));
  }

  // ---------------------------------------------------------------- what the pair promises

  /** Removing the padding of what encryption padded. */
  lemma DecryptedPadded(c: Cipher, random: Bytes, message: Bytes, appId: Bytes)
    requires c.Valid()
    ensures Decrypted(c, Encrypted(c, random, message, appId)) == Unframe(Content(random, message, appId))
  {
    var content := Content(random, message, appId);
    hide Content, Padding, Decrypted;
    assert Encrypted(c, random, message, appId) == CbcEncrypt(c, c.iv, content + Padding(|content|));
    DecryptedBuffer(c, content);
  }

  lemma DecryptedBuffer(c: Cipher, content: Bytes)
    requires c.Valid() && |content| >= 20
    ensures Decrypted(c, CbcEncrypt(c, c.iv, content + Padding(|content|))) == Unframe(content)
  {
    var p := content + Padding(|content|);
    assert |p| >= 32 && |p| % 32 == 0;
    DecryptUndoesEncrypt(c, c.iv, p);
    PaddingComesOff(content);
    hide CbcEncrypt, CbcDecrypt, Padding, Unframe, Cipher.Valid;
  }

  lemma PaddingComesOff(content: Bytes)
    ensures var p := content + Padding(|content|);
            1 <= LastByte(p) <= 32 && p[..|p| - LastByte(p)] == content
  {
    var padding := Padding(|content|);
    var p := content + padding;
    assert p[|p| - 1] == padding[|padding| - 1];
  }

  lemma UnframeContentExact(random: Bytes, message: Bytes, appId: Bytes)
    ensures Unframe(Content(random, message, appId)) == Ok(Parts(Random16(random), message, appId))
            <==> appId != [] && |message| < WORD
    ensures Unframe(Content(random, message, appId)).Err? <==> appId == [] && |message| < WORD
  {
    UnframeContent(random, message, appId);
    if |message| < WORD {
      assert (message + appId)[..|message|] == message && (message + appId)[|message|..] == appId;
    }
  }

  /** Decryption undoes encryption exactly for a message below 2^32 bytes and an appId that is not empty. */
  lemma RoundTrip(c: Cipher, random: Bytes, message: Bytes, appId: Bytes)
    requires c.Valid()
    ensures Decrypted(c, Encrypted(c, random, message, appId)) == Ok(Parts(Random16(random), message, appId))
            <==> appId != [] && |message| < WORD
  {
    hide *;
    DecryptedPadded(c, random, message, appId);
    UnframeContentExact(random, message, appId);
  }

  /** What was encrypted is refused exactly when there is no appId (and the length did not wrap). */
  lemma Refuses(c: Cipher, random: Bytes, message: Bytes, appId: Bytes)
    requires c.Valid()
    ensures Decrypted(c, Encrypted(c, random, message, appId)).Err? <==> appId == [] && |message| < WORD
  {
    hide *;
    DecryptedPadded(c, random, message, appId);
    UnframeContentExact(random, message, appId);
  }

  /** A message of 2^32 bytes or more is taken apart at its wrapped length. */
  lemma LongMessageWraps(c: Cipher, random: Bytes, message: Bytes, appId: Bytes)
    requires c.Valid() && |message| >= WORD
    ensures var n := |message| % WORD;
            Decrypted(c, Encrypted(c, random, message, appId)) ==
              Ok(Parts(Random16(random), message[..n], message[n..] + appId))
  {
    hide Decrypted, Encrypted, Content, Unframe;
    DecryptedPadded(c, random, message, appId);
    UnframeContent(random, message, appId);
    var n := |message| % WORD;
    assert (message + appId)[..n] == message[..n] && (message + appId)[n..] == message[n..] + appId;
  }

  /** Whatever the ciphertext, what is accepted is a whole frame up to the announced padding, so the
      parts fill the buffer; and a buffer that holds a frame is accepted with the parts it frames. */
  lemma AcceptsExactly(c: Cipher, ciphertext: Bytes, parts: Parts)
    requires c.Valid()
    ensures Decrypted(c, ciphertext) == Ok(parts) <==>
              && |ciphertext| >= 32 && |ciphertext| % 32 == 0
              && var p := CbcDecrypt(c, c.iv, ciphertext);
                 && 1 <= LastByte(p) <= 32
                 && Framed(p[..|p| - LastByte(p)], parts)
    ensures Decrypted(c, ciphertext) == Ok(parts) ==>
              20 + |parts.message| + |parts.appId| == |ciphertext| - LastByte(CbcDecrypt(c, c.iv, ciphertext))
  {
    hide CbcDecrypt, Unframe;
    if |ciphertext| >= 32 && |ciphertext| % 32 == 0 {
      var p := CbcDecrypt(c, c.iv, ciphertext);
      if 1 <= LastByte(p) <= 32 {
        UnframeExact(p[..|p| - LastByte(p)], parts);
      }
    }
  }

  /** The frame that the parts fill before the padding: 16 bytes, the length of the message with its highest
      byte first, the message, and an appId that is not empty. */
  ghost predicate Filled(p: Bytes, end: int, parts: Parts) {
    && 20 + |parts.message| < end <= |p| && |parts.message| < 4294967296
    && parts.random == p[..16]
    && p[16] as int * 16777216 + p[17] as int * 65536 + p[18] as int * 256 + p[19] as int == |parts.message|
    && parts.message == p[20..20 + |parts.message|] && parts.appId == p[20 + |parts.message|..end]
  }

  lemma FramedIsFilled(p: Bytes, end: nat, parts: Parts)
    requires end <= |p|
    ensures Framed(p[..end], parts) <==> Filled(p, end, parts)
  {
    var q := p[..end];
    if Framed(q, parts) {
      FramedFills(q, parts);
      assert p[20..20 + |parts.message|] == q[20..20 + |parts.message|];
      assert p[20 + |parts.message|..end] == q[20 + |parts.message|..];
    }
    if Filled(p, end, parts) {
      FilledFrames(p, end, parts);
    }
  }

  lemma FramedFills(q: Bytes, parts: Parts)
    requires Framed(q, parts)
    ensures 20 + |parts.message| < |q| && parts.random == q[..16]
    ensures q[16] as int * 16777216 + q[17] as int * 65536 + q[18] as int * 256 + q[19] as int == |parts.message|
    ensures parts.message == q[20..20 + |parts.message|] && parts.appId == q[20 + |parts.message|..]
  {
    var n := |parts.message|;
    DecodeBigEndian(n);
    hide BigEndian;
    assert q[16] == BigEndian(n)[0] && q[17] == BigEndian(n)[1] && q[18] == BigEndian(n)[2] && q[19] == BigEndian(n)[3];
  }

  lemma FilledFrames(p: Bytes, end: nat, parts: Parts)
    requires Filled(p, end, parts)
    ensures Framed(p[..end], parts)
  {
    var length := p[16..20];
    BigEndianDecode(length);
    assert DecodeNetworkByteOrder(length) == |parts.message|;
    hide BigEndian, DecodeNetworkByteOrder;
    assert parts.message + parts.appId == p[20..end];
    assert p[..end] == p[..16] + length + p[20..end];
  }

  /** The ciphertext is the chained encryption of `p`, whose last byte is from 1 to 32; without that many
      bytes it is filled by the parts. */
  ghost predicate Opens(c: Cipher, p: Bytes, ciphertext: Bytes, parts: Parts) {
    && p != [] && Chained(c, c.iv, p, ciphertext)
    && 1 <= LastByte(p) <= 32 && Filled(p, |p| - LastByte(p), parts)
  }

  lemma OnlyPlaintext(c: Cipher, p: Bytes, ciphertext: Bytes)
    requires c.Valid() && |ciphertext| % 16 == 0
    ensures Chained(c, c.iv, p, ciphertext) <==> p == CbcDecrypt(c, c.iv, ciphertext)
  {
    EncryptUndoesDecrypt(c, c.iv, ciphertext);
    ChainedExactly(c, CbcDecrypt(c, c.iv, ciphertext), ciphertext);
    if Chained(c, c.iv, p, ciphertext) {
      ChainedExactly(c, p, ciphertext);
      DecryptUndoesEncrypt(c, c.iv, p);
    }
  }

  ghost predicate Unpads(c: Cipher, p: Bytes, ciphertext: Bytes, parts: Parts)
    requires c.Valid()
  {
    && p == CbcDecrypt(c, c.iv, ciphertext) && p != []
    && 1 <= LastByte(p) <= 32 && |p| >= 32 && Framed(p[..|p| - LastByte(p)], parts)
  }

  lemma OpensOnly(c: Cipher, p: Bytes, ciphertext: Bytes, parts: Parts)
    requires c.Valid() && |ciphertext| >= 32 && |ciphertext| % 32 == 0
    ensures Opens(c, p, ciphertext, parts) <==> Unpads(c, p, ciphertext, parts)
  {
    WholeBlocks(|ciphertext|);
    OnlyPlaintext(c, p, ciphertext);
    hide Chained, Filled, Framed, CbcDecrypt, Cipher.Valid;
    if |p| == |ciphertext| && 1 <= LastByte(p) <= 32 {
      FramedIsFilled(p, |p| - LastByte(p), parts);
    }
  }

  lemma UnpadsExactly(c: Cipher, ciphertext: Bytes, parts: Parts)
    requires c.Valid() && |ciphertext| >= 32 && |ciphertext| % 32 == 0
    ensures Decrypted(c, ciphertext) == Ok(parts) <==> Unpads(c, CbcDecrypt(c, c.iv, ciphertext), ciphertext, parts)
    ensures forall p :: Unpads(c, p, ciphertext, parts) ==> p == CbcDecrypt(c, c.iv, ciphertext)
  {
    AcceptsExactly(c, ciphertext, parts);
    hide Decrypted, Framed, CbcDecrypt, Cipher.Valid;
  }

  /** What decryption accepts, block by block: whole 32-byte blocks that open to the parts. */
  lemma DecryptsExactly(c: Cipher, ciphertext: Bytes, parts: Parts)
    requires c.Valid()
    ensures Decrypted(c, ciphertext) == Ok(parts) <==>
              |ciphertext| >= 32 && |ciphertext| % 32 == 0 && exists p :: Opens(c, p, ciphertext, parts)
  {
    if |ciphertext| >= 32 && |ciphertext| % 32 == 0 {
      UnpadsExactly(c, ciphertext, parts);
      hide *;
      OpensOnly(c, CbcDecrypt(c, c.iv, ciphertext), ciphertext, parts);
      if p :| Opens(c, p, ciphertext, parts) {
        OpensOnly(c, p, ciphertext, parts);
      }
    }
  }

  /** Every padding byte gives the padding's length, as PKCS#7 asks; decryption looks at the last one only. */
  ghost predicate UniformPadding(p: Bytes)
    requires p != [] && LastByte(p) <= |p|
  {
    forall i :: |p| - LastByte(p) <= i < |p| ==> p[i] as int == LastByte(p)
  }

  /** Encrypting accepted parts again gives the same ciphertext exactly when its padding was uniform. */
  lemma ReEncrypt(c: Cipher, ciphertext: Bytes, parts: Parts)
    requires c.Valid() && Decrypted(c, ciphertext) == Ok(parts)
    ensures Encrypted(c, parts.random, parts.message, parts.appId) == ciphertext
            <==> UniformPadding(CbcDecrypt(c, c.iv, ciphertext))
  {
    hide Unframe, Framed, CbcEncrypt, CbcDecrypt, Encrypted, UniformPadding;
    AcceptsExactly(c, ciphertext, parts);
    ReEncryptFrame(c, ciphertext, CbcDecrypt(c, c.iv, ciphertext), parts);
  }

  lemma ReEncryptFrame(c: Cipher, ciphertext: Bytes, p: Bytes, parts: Parts)
    requires c.Valid() && p == CbcDecrypt(c, c.iv, ciphertext)
    requires |p| % 32 == 0 && p != [] && 1 <= LastByte(p) <= 32 && Framed(p[..|p| - LastByte(p)], parts)
    ensures Encrypted(c, parts.random, parts.message, parts.appId) == ciphertext <==> UniformPadding(p)
  {
    hide *;
    var q := p[..|p| - LastByte(p)];
    EncryptedFrame(c, q, parts);
    SameBuffer(c, q + Padding(|q|), ciphertext);
    SamePadding(p);
  }

  lemma EncryptedFrame(c: Cipher, q: Bytes, parts: Parts)
    requires c.Valid() && Framed(q, parts)
    ensures Encrypted(c, parts.random, parts.message, parts.appId) == CbcEncrypt(c, c.iv, q + Padding(|q|))
  {
    FramedIsContent(q, parts);
  }

  lemma FramedIsContent(q: Bytes, parts: Parts)
    requires Framed(q, parts)
    ensures q == Content(parts.random, parts.message, parts.appId)
  {
    assert |parts.message| % WORD == |parts.message|;
    assert Random16(parts.random) == parts.random;
  }

  lemma SameBuffer(c: Cipher, p: Bytes, ciphertext: Bytes)
    requires c.Valid()
    ensures CbcEncrypt(c, c.iv, p) == ciphertext <==> p == CbcDecrypt(c, c.iv, ciphertext)
  {
    EncryptUndoesDecrypt(c, c.iv, ciphertext);
    DecryptUndoesEncrypt(c, c.iv, p);
  }

  lemma SamePadding(p: Bytes)
    requires |p| % 32 == 0 && p != [] && 1 <= LastByte(p) <= 32
    ensures var q := p[..|p| - LastByte(p)]; q + Padding(|q|) == p <==> UniformPadding(p)
  {
    var q := p[..|p| - LastByte(p)];
    var padding := Padding(|q|);
    assert |padding| == LastByte(p);
    if UniformPadding(p) {
      assert p[|q|..] == padding;
    }
    if q + padding == p {
      forall i | |q| <= i < |p| ensures p[i] as int == LastByte(p) {
        assert p[i] == padding[i - |q|];
      }
    }
  }
}
