/**
  The streaming part of contrib/libcompat/md5.c: the digest of a message does not depend on how it
  is cut into updates.  The block function is a parameter.
 */
module Md5 {

  newtype byte = x: int | 0 <= x < 256
  type Message = seq<byte>

  /** The four 32-bit words of the state. */
  datatype Words = Words(a: nat, b: nat, c: nat, d: nat)

  const BLOCK: nat := 64
  /** The bit count is kept modulo 2^64. */
  const BITS: nat := 0x1_0000_0000_0000_0000

  type BlockFunction = (Words, Message) -> Words

  function Initial(): Words {
    Words(0x67452301, 0xefcdab89, 0x98badcfe, 0x10325476)
  }

  // ---------------------------------------------------------------- messages and blocks

  /** The block function folded over the whole blocks of a message. */
  function Fold(f: BlockFunction, s: Words, m: Message): Words
    decreases |m|
  {
    if |m| < BLOCK then s else Fold(f, f(s, m[..BLOCK]), m[BLOCK..])
  }

  /** What is left of a message after its whole blocks. */
  function Tail(m: Message): (t: Message)
    ensures |t| == |m| % BLOCK
    decreases |m|
  {
    if |m| < BLOCK then m else Tail(m[BLOCK..])
  }

  /** A whole block in front goes through the block function first, and less than a block changes
      nothing. */
  lemma {:induction false} FoldFirst(f: BlockFunction, s: Words, b: Message, m: Message)
    requires |b| == BLOCK
    ensures Fold(f, s, b + m) == Fold(f, f(s, b), m)
    ensures |m| < BLOCK ==> Fold(f, s, m) == s
  {
    assert (b + m)[..BLOCK] == b && (b + m)[BLOCK..] == m;
  }

  /** A whole block behind whole blocks goes through the block function last. */
  lemma {:induction false} FoldLast(f: BlockFunction, s: Words, m: Message, b: Message)
    requires |b| == BLOCK && |m| % BLOCK == 0
    ensures Fold(f, s, m + b) == f(Fold(f, s, m), b)
  {
    FoldAppend(f, s, m, b);
    assert Tail(m) + b == b;
    FoldFirst(f, Fold(f, s, m), b, []);
    assert b + [] == b;
  }

  lemma {:induction false} TailIsSuffix(m: Message)
    ensures Tail(m) == m[|m| - |m| % BLOCK..]
    decreases |m|
  {
    if |m| >= BLOCK {
      TailIsSuffix(m[BLOCK..]);
    }
  }

  /** Folding may stop after any prefix and go on with what was left of it. */
  lemma {:induction false} FoldAppend(f: BlockFunction, s: Words, m: Message, x: Message)
    ensures Fold(f, s, m + x) == Fold(f, Fold(f, s, m), Tail(m) + x)
    ensures Tail(m + x) == Tail(Tail(m) + x)
    decreases |m|
  {
    if |m| >= BLOCK {
      assert (m + x)[..BLOCK] == m[..BLOCK] && (m + x)[BLOCK..] == m[BLOCK..] + x;
      FoldAppend(f, f(s, m[..BLOCK]), m[BLOCK..], x);
    }
  }

  // ---------------------------------------------------------------- padding

  function Zeros(n: nat): (z: Message)
    ensures |z| == n && forall i :: 0 <= i < n ==> z[i] == 0
  {
    if n == 0 then [] else [0] + Zeros(n - 1)
  }

  /** The n low-order bytes of v, least significant first. */
  function LittleEndian(v: nat, n: nat): (b: Message)
    ensures |b| == n
  {
    if n == 0 then [] else [(v % 256) as byte] + LittleEndian(v / 256, n - 1)
  }

  /** The number that bytes stand for, least significant first. */
  function Number(b: Message): nat {
    if b == [] then 0 else b[0] as nat + 256 * Number(b[1..])
  }

  function Bound(n: nat): nat {
    if n == 0 then 1 else 256 * Bound(n - 1)
  }

  /** Byte i of a number. */
  function Digit(v: nat, i: nat): nat {
    if i == 0 then v % 256 else Digit(v / 256, i - 1)
  }

  lemma {:induction false} LittleEndianAt(v: nat, n: nat, i: nat)
    requires i < n
    ensures LittleEndian(v, n)[i] as nat == Digit(v, i)
  {
    if i > 0 { LittleEndianAt(v / 256, n - 1, i - 1); }
  }

  /** Decoding gives the number back exactly if it fits. */
  lemma {:induction false} LittleEndianBack(v: nat, n: nat)
    ensures Number(LittleEndian(v, n)) < Bound(n)
    ensures Number(LittleEndian(v, n)) == v <==> v < Bound(n)
  {
    if n > 0 {
      var b := LittleEndian(v, n);
      assert b[1..] == LittleEndian(v / 256, n - 1);
      LittleEndianBack(v / 256, n - 1);
    }
  }

  lemma {:induction false} Bounds()
    ensures Bound(4) == 0x1_0000_0000 && Bound(8) == BITS
  {
    assert Bound(1) == 256 && Bound(2) == 0x1_0000 && Bound(3) == 0x100_0000;
    assert Bound(5) == 0x100_0000_0000 && Bound(6) == 0x1_0000_0000_0000 && Bound(7) == 0x100_0000_0000_0000;
  }

  predicate Leaves8(n: nat, k: nat) { (n + 1 + k) % BLOCK == BLOCK - 8 }

  /** How many zeros follow the first padding byte: the least number that leaves eight bytes to the
      end of a block. */
  function ZeroCount(n: nat): (k: nat)
    ensures k < BLOCK && Leaves8(n, k)
    ensures forall j :: 0 <= j < k ==> !Leaves8(n, j)
  {
    (55 - n) % 64
  }

  /** The padded message of sections 3.1 and 3.2 of RFC 1321. */
  function Padded(m: Message): (p: Message)
    ensures |p| == |m| + 1 + ZeroCount(|m|) + 8
  {
    m + [0x80] + Zeros(ZeroCount(|m|)) + LittleEndian(8 * |m| % BITS, 8)
  }

  /** Padding leaves whole blocks. */
  lemma {:induction false} PaddedWhole(m: Message)
    ensures |Padded(m)| % BLOCK == 0 && Tail(Padded(m)) == []
  {
    EightMore(|m| + 1 + ZeroCount(|m|));
  }

  lemma {:induction false} EightMore(n: nat)
    requires n % BLOCK == BLOCK - 8
    ensures (n + 8) % BLOCK == 0
  {
  }

  /** The padded message byte by byte: the message, 0x80, zeros, and the bit count in the last eight bytes;
      at least nine bytes and at most 72 are added to fill the last block. */
  lemma {:induction false} PaddedBytes(m: Message)
    ensures var p := Padded(m);
      && |p| % BLOCK == 0 && 9 <= |p| - |m| <= BLOCK + 8
      && p[..|m|] == m && p[|m|] == 0x80 && (forall i :: |m| < i < |p| - 8 ==> p[i] == 0)
      && Number(p[|p| - 8..]) == 8 * |m| % BITS
  {
    var p, k, c := Padded(m), ZeroCount(|m|), LittleEndian(8 * |m| % BITS, 8);
    PaddedWhole(m);
    assert p == m + ([0x80] + Zeros(k) + c);
    assert p[|p| - 8..] == c;
    Bounds();
    LittleEndianBack(8 * |m| % BITS, 8);
    forall i | |m| < i < |p| - 8 ensures p[i] == 0 { assert p[i] == Zeros(k)[i - |m| - 1]; }
  }

  /** The state as 16 bytes. */
  function Encoded(s: Words): Message {
    LittleEndian(s.a, 4) + LittleEndian(s.b, 4) + LittleEndian(s.c, 4) + LittleEndian(s.d, 4)
  }

  /** The words come one after the other, and a state of 32-bit words can be read back. */
  lemma {:induction false} EncodedWords(s: Words)
    ensures |Encoded(s)| == 16
    ensures Number(Encoded(s)[..4]) == s.a <==> s.a < 0x1_0000_0000
    ensures Number(Encoded(s)[4..8]) == s.b <==> s.b < 0x1_0000_0000
    ensures Number(Encoded(s)[8..12]) == s.c <==> s.c < 0x1_0000_0000
    ensures Number(Encoded(s)[12..]) == s.d <==> s.d < 0x1_0000_0000
  {
    Bounds();
    LittleEndianBack(s.a, 4);
    LittleEndianBack(s.b, 4);
    LittleEndianBack(s.c, 4);
    LittleEndianBack(s.d, 4);
    FourParts(LittleEndian(s.a, 4), LittleEndian(s.b, 4), LittleEndian(s.c, 4), LittleEndian(s.d, 4));
  }

  lemma {:induction false} FourParts(a: Message, b: Message, c: Message, d: Message)
    requires |a| == |b| == |c| == |d| == 4
    ensures var e := a + b + c + d; e[..4] == a && e[4..8] == b && e[8..12] == c && e[12..] == d
  {
  }

  /** The initial state as section 3.3 of RFC 1321 lists its bytes. */
  lemma {:induction false} InitialBytes()
    ensures Encoded(Initial()) ==
      [0x01, 0x23, 0x45, 0x67, 0x89, 0xab, 0xcd, 0xef, 0xfe, 0xdc, 0xba, 0x98, 0x76, 0x54, 0x32, 0x10]
  {
    FourBytes(0x67452301, 0x674523, 0x6745, 0x67);
    FourBytes(0xefcdab89, 0xefcdab, 0xefcd, 0xef);
    FourBytes(0x98badcfe, 0x98badc, 0x98ba, 0x98);
    FourBytes(0x10325476, 0x103254, 0x1032, 0x10);
  }

  lemma {:induction false} FourBytes(v: nat, v1: nat, v2: nat, v3: nat)
    requires v1 == v / 256 && v2 == v1 / 256 && v3 == v2 / 256
    ensures LittleEndian(v, 4) == [(v % 256) as byte, (v1 % 256) as byte, (v2 % 256) as byte, (v3 % 256) as byte]
  {
    assert LittleEndian(v3, 1) == [(v3 % 256) as byte] + LittleEndian(v3 / 256, 0);
    assert LittleEndian(v2, 2) == [(v2 % 256) as byte] + LittleEndian(v3, 1);
    assert LittleEndian(v1, 3) == [(v1 % 256) as byte] + LittleEndian(v2, 2);
  }

  function Digest(f: BlockFunction, m: Message): Message {
    Encoded(Fold(f, Initial(), Padded(m)))
  }

  // ---------------------------------------------------------------- the context

  /** memcpy */
  method Copy(to: array<byte>, at: nat, from: Message)
    requires at + |from| <= to.Length
    modifies to
    ensures to[..at] == old(to[..at]) && to[at..at + |from|] == from
  {
    for i := 0 to |from|
      invariant to[..at] == old(to[..at]) && to[at..at + i] == from[..i]
    {
      to[at + i] := from[i];
      assert to[at..at + i + 1] == to[at..at + i] + [from[i]];
      assert from[..i + 1] == from[..i] + [from[i]];
    }
    assert from[..|from|] == from;
  }

  class Context {
    const f: BlockFunction
    var state: Words
    var count: nat
    const buffer: array<byte>
    /** The message so far. */
    ghost var message: Message

    ghost predicate Valid() reads this, buffer {
      && buffer.Length == BLOCK
      && count == 8 * |message| % BITS
      && state == Fold(f, Initial(), message)
      && buffer[..|message| % BLOCK] == Tail(message)
    }

    /** MD5Init */
    constructor (f: BlockFunction)
      ensures Valid() && fresh(buffer) && message == [] && this.f == f
    {
      this.f := f;
      state, count, message := Initial(), 0, [];
      buffer := new byte[BLOCK](i => 0);
    }

    /** The number of bytes in the buffer. */
    method Have() returns (have: nat)
      requires Valid()
      ensures have == |message| % BLOCK
    {
      Counted(|message|);
      have := count / 8 % BLOCK;
    }

    /** MD5Update */
    method Update(input: Message)
      requires Valid()
      modifies this`state, this`count, this`message, buffer
      ensures Valid() && message == old(message) + input
    {
      var have := Have();
      count := (count + |input| * 8) % BITS;
      Recounted(|message|, |input|);
      FoldAppend(f, Initial(), message, input);
      ghost var all := Tail(message) + input;
      state := Absorb(input, have, all);
      message := message + input;
    }

    /** The body of MD5Update, from the bytes in the buffer and the input on. */
    method Absorb(input: Message, have: nat, ghost all: Message) returns (s: Words)
      requires buffer.Length == BLOCK && have < BLOCK && all == buffer[..have] + input
      modifies buffer
      ensures s == Fold(f, state, all) && buffer[..|all| % BLOCK] == Tail(all)
    {
      s := state;
      if |input| < BLOCK - have {
        Copy(buffer, have, input);
        assert buffer[..have + |input|] == buffer[..have] + buffer[have..have + |input|];
        return;
      }
      var off := 0;
      if have != 0 {
        off := BLOCK - have;
        Copy(buffer, have, input[..off]);
        assert buffer[..] == buffer[..have] + buffer[have..BLOCK];
        assert all[..BLOCK] == buffer[..] && all[BLOCK..] == input[off..];
        s := f(s, buffer[..]);
      } else {
        assert all == input[0..];
      }
      s, off := Blocks(input, off, s);
      Copy(buffer, 0, input[off..]);
    }

    /** The loop over the whole blocks of the input. */
    method Blocks(input: Message, from: nat, start: Words) returns (s: Words, off: nat)
      requires from <= |input|
      ensures from <= off <= |input| && s == Fold(f, start, input[from..]) && input[off..] == Tail(input[from..])
    {
      s, off := start, from;
      while |input| - off >= BLOCK
        invariant from <= off <= |input|
        invariant Fold(f, s, input[off..]) == Fold(f, start, input[from..])
        invariant Tail(input[off..]) == Tail(input[from..])
      {
        assert input[off..][..BLOCK] == input[off..off + BLOCK] && input[off..][BLOCK..] == input[off + BLOCK..];
        s := f(s, input[off..off + BLOCK]);
        off := off + BLOCK;
      }
    }

    /** MD5Final */
    method Final() returns (digest: Message)
      requires Valid()
      modifies this`state, this`count, this`message, buffer
      ensures digest == Digest(f, old(message))
      ensures state == Words(0, 0, 0, 0) && count == 0 && buffer.Length == BLOCK && forall i :: 0 <= i < BLOCK ==> buffer[i] == 0
    {
      var bits := LittleEndian(count, 8);
      var have := Have();
      var padlen := BLOCK - have;
      if padlen < 1 + 8 {
        padlen := padlen + BLOCK;
      }
      Padding(message, padlen);
      var padding := [0x80] + Zeros(BLOCK - 1);
      Update(padding[..padlen - 8]);
      Update(bits);
      digest := Encoded(state);
      // explicit_bzero
      state, count, message := Words(0, 0, 0, 0), 0, [];
      Copy(buffer, 0, Zeros(BLOCK));
      assert forall i :: 0 <= i < BLOCK ==> buffer[0..BLOCK][i] == 0;
    }
  }

  lemma {:induction false} CountedBytes(n: nat) returns (r: nat, q: nat)
    ensures 8 * n % BITS == 8 * r && r == n - 64 * q
  {
    var p := 8 * n / BITS;
    q := p * 0x80_0000_0000_0000;
    r := n - 64 * q;
  }

  lemma {:induction false} Counted(n: nat)
    ensures 8 * n % BITS / 8 % BLOCK == n % BLOCK
  {
    var r, q := CountedBytes(n);
    assert 8 * r / 8 == r;
    assert r % 64 == n % 64;
  }

  lemma {:induction false} Recounted(n: nat, k: nat)
    ensures (8 * n % BITS + k * 8) % BITS == 8 * (n + k) % BITS
  {
  }

  lemma {:induction false} Padding(m: Message, padlen: nat)
    requires padlen == BLOCK - |m| % BLOCK + if BLOCK - |m| % BLOCK < 9 then BLOCK else 0
    ensures padlen - 8 <= BLOCK
    ensures var p := [0x80] + Zeros(BLOCK - 1);
      Padded(m) == m + p[..padlen - 8] + LittleEndian(8 * |m| % BITS, 8)
  {
    var p, k := [0x80] + Zeros(BLOCK - 1), ZeroCount(|m|);
    assert padlen - 8 == 1 + k;
    assert p[..1 + k] == [0x80] + Zeros(k);
  }

  /** However a message is cut, the digest is that of the whole. */
  method Hash(f: BlockFunction, chunks: seq<Message>) returns (digest: Message)
    ensures digest == Digest(f, Concat(chunks))
  {
    var ctx := new Context(f);
    for i := 0 to |chunks|
      invariant ctx.Valid() && ctx.f == f && fresh(ctx) && fresh(ctx.buffer) && ctx.message == Concat(chunks[..i])
    {
      ctx.Update(chunks[i]);
      assert chunks[..i + 1][..i] == chunks[..i];
    }
    assert chunks[..|chunks|] == chunks;
    digest := ctx.Final();
  }

  function Concat(chunks: seq<Message>): Message {
    if chunks == [] then [] else Concat(chunks[..|chunks| - 1]) + chunks[|chunks| - 1]
  }

  // ---------------------------------------------------------------- the core functions

  function F1(x: bv32, y: bv32, z: bv32): bv32 { z ^ (x & (y ^ z)) }
  function F2(x: bv32, y: bv32, z: bv32): bv32 { F1(z, x, y) }

  /** The functions F and G of section 3.4 of RFC 1321. */
  function F(x: bv32, y: bv32, z: bv32): bv32 { (x & y) | (!x & z) }
  function G(x: bv32, y: bv32, z: bv32): bv32 { (x & z) | (y & !z) }

  lemma {:induction false} Select(x: bv32, y: bv32, z: bv32)
    ensures z ^ (x & (y ^ z)) == (x & y) | (!x & z)
  {
  }

  lemma {:induction false} SelectLast(x: bv32, y: bv32, z: bv32)
    ensures y ^ (z & (x ^ y)) == (x & z) | (y & !z)
  {
  }

  lemma {:induction false} CoreFunctions(x: bv32, y: bv32, z: bv32)
    ensures F1(x, y, z) == F(x, y, z) && F2(x, y, z) == G(x, y, z)
  {
    Select(x, y, z);
    SelectLast(x, y, z);
  }
}
