/**
  The rolling hash of include/peak_hash.h: moving the window by one byte gives the hash of the new
  window.  The table hash_roll_values is a parameter.
 */
module RollingHash {

  newtype byte = x: int | 0 <= x < 256
  type Table = byte -> bv32

  // ---------------------------------------------------------------- words

  function Xor(x: bv32, y: bv32): bv32 { x ^ y }

  /** _ROLL_SHIFT */
  function Rotate(x: bv32): bv32 { (x << 1) | (x >> 31) }

  /** _ROLL_SHIFTN, for 1 to 31 bits */
  function RotateN(x: bv32, y: bv6): bv32
    requires 1 <= y <= 31
  {
    (x << y) | (x >> (32 - y))
  }

  function Rotated(x: bv32, n: nat): bv32 {
    if n == 0 then x else Rotate(Rotated(x, n - 1))
  }

  /** Rotating doubles a word and carries its top bit around. */
  lemma {:induction false} RotateDoubles(x: bv32)
    ensures Rotate(x) == x + x + if x >= 0x8000_0000 then 1 else 0
  {
    Doubles(x);
  }

  lemma {:induction false} Doubles(x: bv32)
    ensures (x << 1) | (x >> 31) == x + x + if x >= 0x8000_0000 then 1 else 0
  {
  }

  lemma {:induction false} RotateXor(x: bv32, y: bv32)
    ensures Rotate(Xor(x, y)) == Xor(Rotate(x), Rotate(y))
  {
  }

  lemma {:induction false} RotateOne(x: bv32)
    ensures RotateN(x, 1) == Rotate(x)
  {
  }

  lemma {:induction false} ShiftMore(x: bv32, y: bv6)
    requires 1 <= y <= 30
    ensures (x << (y + 1)) | (x >> (32 - (y + 1))) ==
            (((x << y) | (x >> (32 - y))) << 1) | (((x << y) | (x >> (32 - y))) >> 31)
  {
  }

  lemma {:induction false} RotateMore(x: bv32, y: bv6)
    requires 1 <= y <= 30
    ensures RotateN(x, y + 1) == Rotate(RotateN(x, y))
  {
    ShiftMore(x, y);
  }

  lemma {:induction false} RotateAround(x: bv32)
    ensures Rotate(RotateN(x, 31)) == x
  {
  }

  lemma {:induction false} XorSwap(x: bv32, y: bv32)
    ensures Xor(x, y) == Xor(y, x)
  {
  }

  lemma {:induction false} XorShift(x: bv32, y: bv32, z: bv32)
    ensures Xor(x, Xor(y, z)) == Xor(Xor(x, y), z)
  {
  }

  lemma {:induction false} XorCancel(x: bv32)
    ensures Xor(x, x) == 0 && Xor(x, 0) == x && Rotate(0) == 0
  {
  }

  lemma {:induction false} Amount(n: nat)
    requires 1 <= n <= 31
    ensures 1 <= n as bv6 <= 31
  {
  }

  lemma {:induction false} AmountMore(n: nat)
    requires n <= 30
    ensures (n + 1) as bv6 == (n as bv6) + 1
  {
  }

  function RotateBy(x: bv32, n: nat): bv32
    requires 1 <= n <= 31
  {
    Amount(n);
    RotateN(x, n as bv6)
  }

  lemma {:induction false} RotateByMore(x: bv32, n: nat)
    requires 1 <= n <= 30
    ensures RotateBy(x, n + 1) == Rotate(RotateBy(x, n))
  {
    Amount(n);
    AmountUpTo30(n);
    AmountMore(n);
    RotateMore(x, n as bv6);
  }

  lemma {:induction false} AmountUpTo30(n: nat)
    requires 1 <= n <= 30
    ensures n as bv6 <= 30
  {
  }

  /** The wide shift is the narrow one repeated. */
  lemma {:induction false} RotateByIs(x: bv32, n: nat)
    requires 1 <= n <= 31
    ensures RotateBy(x, n) == Rotated(x, n)
  {
    if n == 1 {
      RotateOne(x);
      assert Rotated(x, 0) == x;
    } else {
      RotateByIs(x, n - 1);
      RotateByMore(x, n - 1);
    }
  }

  lemma {:induction false} FullTurn(x: bv32, n: nat)
    ensures Rotated(x, n + 32) == Rotated(x, n)
  {
    if n == 0 {
      RotateByIs(x, 31);
      RotateAround(x);
    } else {
      FullTurn(x, n - 1);
    }
  }

  lemma {:induction false} TurnsAround(x: bv32, n: nat)
    ensures Rotated(x, n % 32) == Rotated(x, n)
  {
    if n >= 32 {
      var m := n - 32;
      TurnsAround(x, m);
      FullTurn(x, m);
      assert m % 32 == n % 32;
    }
  }

  lemma {:induction false} Turned(x: bv32, n: nat, r: nat)
    requires r == n % 32 && r != 0
    ensures RotateBy(x, r) == Rotated(x, n)
  {
    TurnsAround(x, n);
    RotateByIs(x, r);
  }

  // ---------------------------------------------------------------- the hash

  /** hash_roll of a byte string. */
  function Hash(v: Table, s: seq<byte>): bv32 {
    if s == [] then 0 else Xor(Rotate(Hash(v, s[..|s| - 1])), v(s[|s| - 1]))
  }

  /** The hash starts from zero. */
  lemma {:induction false} HashShort(v: Table, b: byte)
    ensures Hash(v, []) == 0 && Hash(v, [b]) == v(b)
  {
    assert [b][..0] == [];
    XorCancel(v(b));
    XorSwap(0, v(b));
  }

  /** The share of the first byte. */
  lemma {:induction false} HashFirst(v: Table, b: byte, r: seq<byte>)
    ensures Hash(v, [b] + r) == Xor(Rotated(v(b), |r|), Hash(v, r))
    decreases |r|
  {
    var s := [b] + r;
    if r == [] {
      assert s == [b] && s[..0] == [];
      XorCancel(v(b));
      XorSwap(0, v(b));
    } else {
      var n := |r| - 1;
      assert s[..|s| - 1] == [b] + r[..n] && s[|s| - 1] == r[n];
      HashFirst(v, b, r[..n]);
      RotateXor(Rotated(v(b), n), Hash(v, r[..n]));
      XorShift(Rotated(v(b), n + 1), Rotate(Hash(v, r[..n])), v(r[n]));
    }
  }

  /** One step of the window from [b] + r to r + [c]. */
  lemma {:induction false} Slide(v: Table, b: byte, r: seq<byte>, c: byte)
    ensures Hash(v, r + [c]) == Xor(Xor(Rotate(Hash(v, [b] + r)), Rotated(v(b), |r| + 1)), v(c))
  {
    assert (r + [c])[..|r|] == r;
    HashFirst(v, b, r);
    var x, y := Rotated(v(b), |r|), Hash(v, r);
    RotateXor(x, y);
    Cancelled(Rotate(x), Rotate(y));
  }

  lemma {:induction false} Cancelled(x: bv32, y: bv32)
    ensures Xor(Xor(x, y), x) == y
  {
  }

  // ---------------------------------------------------------------- the window

  /** ROLL_HEAD over a buffer */
  class Head {
    const v: Table
    const buf: seq<byte>
    var first: nat
    var next: nat
    var hash: bv32

    /** The hash is that of the window. */
    ghost predicate Valid() reads this {
      first <= next <= |buf| && hash == Hash(v, buf[first..next])
    }

    /** ROLL_INIT */
    constructor (v: Table, buf: seq<byte>)
      ensures Valid() && this.v == v && this.buf == buf && first == next == 0
    {
      this.v, this.buf := v, buf;
      first, next, hash := 0, 0, 0;
    }

    /** ROLL_NEXT */
    method Next()
      requires Valid() && next < |buf|
      modifies this
      ensures Valid() && first == old(first) && next == old(next) + 1
    {
      Longer(first, next);
      hash := Xor(Rotate(hash), v(buf[next]));
      next := next + 1;
    }

    lemma {:induction false} Longer(a: nat, b: nat)
      requires a <= b < |buf|
      ensures Hash(v, buf[a..b + 1]) == Xor(Rotate(Hash(v, buf[a..b])), v(buf[b]))
    {
      assert buf[a..b + 1][..b - a] == buf[a..b];
    }

    /** ROLL_NEXTN */
    method NextN(len: nat)
      requires Valid() && next + len <= |buf|
      modifies this
      ensures Valid() && first == old(first) && next == old(next) + len
    {
      for i := 0 to len
        invariant Valid() && first == old(first) && next == old(next) + i
      {
        Next();
      }
    }

    /** ROLL_SHIFT */
    method Shift()
      requires Valid() && next < |buf| && (next - first) % 32 != 0
      modifies this
      ensures Valid() && first == old(first) + 1 && next == old(next) + 1
    {
      Moved(first, next);
      var len := (next - first) % 32;
      var val := v(buf[first]);
      first := first + 1;
      hash := Xor(Xor(Rotate(hash), RotateBy(val, len)), v(buf[next]));
      next := next + 1;
    }

    lemma {:induction false} Moved(a: nat, b: nat)
      requires a < b < |buf| && (b - a) % 32 != 0
      ensures Hash(v, buf[a + 1..b + 1]) == Xor(Xor(Rotate(Hash(v, buf[a..b])), RotateBy(v(buf[a]), (b - a) % 32)), v(buf[b]))
    {
      var r := buf[a + 1..b];
      assert buf[a..b] == [buf[a]] + r && buf[a + 1..b + 1] == r + [buf[b]];
      Turned(v(buf[a]), b - a, (b - a) % 32);
      Slide(v, buf[a], r, buf[b]);
    }

    /** ROLL_SHIFTN */
    method ShiftN(len: nat)
      requires Valid() && next + len <= |buf| && (next - first) % 32 != 0
      modifies this
      ensures Valid() && first == old(first) + len && next == old(next) + len
    {
      for i := 0 to len
        invariant Valid() && first == old(first) + i && next == old(next) + i
      {
        Shift();
      }
    }
  }

  /** hash_roll */
  method HashRoll(v: Table, buf: seq<byte>) returns (h: bv32)
    ensures h == Hash(v, buf)
  {
    var head := new Head(v, buf);
    head.NextN(|buf|);
    assert buf[0..|buf|] == buf;
    h := head.hash;
  }

  /** The hash of the k bytes from m on, rolled there from the start. */
  method Roll(v: Table, buf: seq<byte>, k: nat, m: nat) returns (h: bv32)
    requires m + k <= |buf| && k % 32 != 0
    ensures h == Hash(v, buf[m..m + k])
  {
    var head := new Head(v, buf);
    head.NextN(k);
    head.ShiftN(m);
    h := head.hash;
  }
}
